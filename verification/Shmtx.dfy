/** The spin mutex in shared memory, as interleaved steps of its processes.  Reading the lock word
    and the compare-and-set that follows are separate steps. */
module Shmtx {
  import opened Bytes
  import opened Powers

  const MODULUS := 0x1_0000_0000

  /** An attempt to take the lock: the only one of a `trylock`, the first one of a round of `lock`, or
      the one that follows a pause of the length `n`. */
  datatype Attempt = Only | First | After(n: Uint32)

  /** Where a process is. */
  datatype Place =
    | Outside
    | Reading(attempt: Attempt)
    | Setting(attempt: Attempt)
    | Pausing(n: Uint32, left: nat)
    | Yielding
    | Critical
    | Crashed

  /** The lock word holds the process id of the owner, or 0. */
  datatype State = State(lock: nat, at: map<nat, Place>)

  datatype Step =
    | Lock(p: nat)
    | TryLock(p: nat)
    | Read(p: nat)
    | CmpSet(p: nat)
    | Pause(p: nat)
    | Yield(p: nat)
    | Unlock(p: nat)
    | ForceUnlock(p: nat, q: nat)
    | Crash(p: nat)

  /** The left shift of an unsigned int. */
  function Doubled(n: Uint32): Uint32 { 2 * n % MODULUS }

  /** The next pause of the back-off round, or the end of the round. */
  function BackOff(n: Uint32, spin: Uint32): Place {
    if n < spin then Pausing(n, n) else Yielding
  }

  /** An attempt has failed. */
  function Failed(attempt: Attempt, spin: Uint32): Place {
    match attempt
    case Only => Outside
    case First => BackOff(1, spin)
    case After(n) => BackOff(Doubled(n), spin)
  }

  predicate Enabled(s: State, t: Step) {
    && t.p in s.at
    && match t
       case Lock(p) => s.at[p] == Outside
       case TryLock(p) => s.at[p] == Outside
       case Read(p) => s.at[p].Reading?
       case CmpSet(p) => s.at[p].Setting?
       case Pause(p) => s.at[p].Pausing?
       case Yield(p) => s.at[p] == Yielding
       case Unlock(p) => s.at[p] == Outside || s.at[p] == Critical
       case ForceUnlock(p, q) => s.at[p] == Outside || s.at[p] == Critical
       case Crash(p) => s.at[p] != Crashed
  }

  function Moved(s: State, p: nat, place: Place): State { s.(at := s.at[p := place]) }

  /** The lock is taken away from the process `q`, if that is its owner. */
  function Freed(s: State, q: nat): State { s.(lock := if s.lock == q then 0 else s.lock) }

  /** A process that forces its own lock leaves its critical section, as with `unlock`. */
  function Next(s: State, t: Step, spin: Uint32): State
    requires Enabled(s, t)
  {
    match t
    case Lock(p) => Moved(s, p, Reading(First))
    case TryLock(p) => Moved(s, p, Reading(Only))
    case Read(p) =>
      var a := s.at[p].attempt;
      Moved(s, p, if s.lock == 0 then Setting(a) else Failed(a, spin))
    case CmpSet(p) =>
      var a := s.at[p].attempt;
      if s.lock == 0 then Moved(s, p, Critical).(lock := p) else Moved(s, p, Failed(a, spin))
    case Pause(p) =>
      var Pausing(n, left) := s.at[p];
      Moved(s, p, if left > 0 then Pausing(n, left - 1) else Reading(After(n)))
    case Yield(p) => Moved(s, p, Reading(First))
    case Unlock(p) => Freed(Moved(s, p, Outside), p)
    case ForceUnlock(p, q) => Freed(if p == q then Moved(s, p, Outside) else s, q)
    case Crash(p) => Moved(s, p, Crashed)
  }

  // ---------- safety ----------

  /** Process ids are not 0; a process in its critical section owns the lock; the owner of the lock
      is in its critical section or has crashed. */
  ghost predicate Safe(s: State) {
    && 0 !in s.at
    && (forall p | p in s.at && s.at[p] == Critical :: s.lock == p)
    && (s.lock != 0 ==> s.lock in s.at && (s.at[s.lock] == Critical || s.at[s.lock] == Crashed))
  }

  ghost predicate Initial(s: State) {
    s.lock == 0 && 0 !in s.at && forall p | p in s.at :: s.at[p] == Outside
  }

  /** Nobody takes the lock away from another process in its critical section. */
  predicate Restricted(s: State, t: Step) {
    t.ForceUnlock? && t.q != t.p && t.q in s.at ==> s.at[t.q] != Critical
  }

  /** Every step keeps the invariant, and `force_unlock` does so exactly when it is not aimed at
      another process in its critical section. */
  lemma StepKeepsSafe(s: State, t: Step, spin: Uint32)
    requires Safe(s) && Enabled(s, t)
    ensures Safe(Next(s, t, spin)) <==> Restricted(s, t)
  {
    var s' := Next(s, t, spin);
    if Restricted(s, t) {
      forall p | p in s'.at && s'.at[p] == Critical
        ensures s'.lock == p
      {
        if t.p != p { assert p in s.at && s.at[p] == Critical; }
      }
    } else {
      assert s'.at[t.q] == Critical && s'.lock == 0;
    }
  }

  /** The step `steps[i]` leads from the state `run[i]` to the next one. */
  ghost predicate Leads(run: seq<State>, steps: seq<Step>, spin: Uint32, i: nat) {
    i < |steps| && i + 1 < |run| && Enabled(run[i], steps[i]) && run[i + 1] == Next(run[i], steps[i], spin)
  }

  /** Whatever the processes do, from an initial state on. */
  ghost predicate IsExecution(run: seq<State>, steps: seq<Step>, spin: Uint32) {
    |run| == |steps| + 1 && Initial(run[0]) && forall i | 0 <= i < |steps| :: Leads(run, steps, spin, i)
  }

  /** An execution in which `force_unlock` is aimed at nobody else's critical section. */
  ghost predicate IsRun(run: seq<State>, steps: seq<Step>, spin: Uint32) {
    IsExecution(run, steps, spin) && forall i | 0 <= i < |steps| :: Restricted(run[i], steps[i])
  }

  lemma {:induction false} RunIsSafe(run: seq<State>, steps: seq<Step>, spin: Uint32, i: nat)
    requires IsRun(run, steps, spin) && i < |run|
    ensures Safe(run[i])
  {
    if i > 0 {
      RunIsSafe(run, steps, spin, i - 1);
      assert Leads(run, steps, spin, i - 1);
      StepKeepsSafe(run[i - 1], steps[i - 1], spin);
    }
  }

  /** Mutual exclusion: whatever the interleaving, at most one process is in its critical section,
      and the lock word is its process id. */
  lemma MutualExclusion(run: seq<State>, steps: seq<Step>, spin: Uint32, i: nat, p: nat, q: nat)
    requires IsRun(run, steps, spin) && i < |run|
    requires p in run[i].at && run[i].at[p] == Critical && q in run[i].at && run[i].at[q] == Critical
    ensures p == q == run[i].lock
  {
    RunIsSafe(run, steps, spin, i);
  }

  /** An execution is safe throughout exactly when each of its calls is restricted. */
  lemma SafeExactlyWhenRestricted(run: seq<State>, steps: seq<Step>, spin: Uint32)
    requires IsExecution(run, steps, spin)
    ensures (forall i | 0 <= i < |run| :: Safe(run[i])) <==> IsRun(run, steps, spin)
  {
    if IsRun(run, steps, spin) {
      forall i | 0 <= i < |run|
        ensures Safe(run[i])
      {
        RunIsSafe(run, steps, spin, i);
      }
    }
    if forall i | 0 <= i < |run| :: Safe(run[i]) {
      forall i | 0 <= i < |steps|
        ensures Restricted(run[i], steps[i])
      {
        assert Leads(run, steps, spin, i) && Safe(run[i + 1]);
        StepKeepsSafe(run[i], steps[i], spin);
      }
    }
  }

  /** The states of an execution from `s` on. */
  function Executed(s: State, steps: seq<Step>, spin: Uint32): (run: seq<State>)
    ensures |run| > 0 && run[0] == s
    decreases |steps|
  {
    if steps == [] || !Enabled(s, steps[0]) then [s] else [s] + Executed(Next(s, steps[0], spin), steps[1..], spin)
  }

  /** Whoever takes the lock away from another process in its critical section can join it there. */
  lemma ForcedOwnerIsNotAlone(s: State, p: nat, q: nat, spin: Uint32)
    requires Safe(s) && p in s.at && q in s.at && p != q && s.at[p] == Outside && s.at[q] == Critical
    ensures var run := Executed(s, [ForceUnlock(p, q), TryLock(p), Read(p), CmpSet(p)], spin);
      |run| == 5 && p in run[4].at && q in run[4].at && run[4].at[p] == run[4].at[q] == Critical && run[4].lock == p
  {
    var s1 := Next(s, ForceUnlock(p, q), spin);
    var s2 := Next(s1, TryLock(p), spin);
    var s3 := Next(s2, Read(p), spin);
    var s4 := Next(s3, CmpSet(p), spin);
    var steps := [ForceUnlock(p, q), TryLock(p), Read(p), CmpSet(p)];
    assert steps[1..] == [TryLock(p), Read(p), CmpSet(p)] && steps[1..][1..] == [Read(p), CmpSet(p)];
    assert steps[1..][1..][1..] == [CmpSet(p)] && steps[1..][1..][1..][1..] == [];
    assert Executed(s3, [CmpSet(p)], spin) == [s3, s4];
    assert Executed(s2, [Read(p), CmpSet(p)], spin) == [s2, s3, s4];
    assert Executed(s1, [TryLock(p), Read(p), CmpSet(p)], spin) == [s1, s2, s3, s4];
  }

  /** An execution in which a single call, a `force_unlock` aimed at a live owner, lets two processes
      into the critical section. */
  lemma UnrestrictedForceUnlockFails(spin: Uint32) returns (run: seq<State>, steps: seq<Step>)
    ensures IsExecution(run, steps, spin) && |steps| > 3
    ensures forall i | 0 <= i < |steps| :: steps[i].ForceUnlock? <==> i == 3
    ensures forall i | 0 <= i < |steps| :: Restricted(run[i], steps[i]) <==> i != 3
    ensures var s := run[|steps|]; 1 in s.at && 2 in s.at && s.at[1] == s.at[2] == Critical
  {
    var s0 := State(0, map[1 := Outside, 2 := Outside]);
    var s1 := Next(s0, TryLock(1), spin);
    var s2 := Next(s1, Read(1), spin);
    var s3 := Next(s2, CmpSet(1), spin);
    var s4 := Next(s3, ForceUnlock(2, 1), spin);
    var s5 := Next(s4, TryLock(2), spin);
    var s6 := Next(s5, Read(2), spin);
    var s7 := Next(s6, CmpSet(2), spin);
    run := [s0, s1, s2, s3, s4, s5, s6, s7];
    steps := [TryLock(1), Read(1), CmpSet(1), ForceUnlock(2, 1), TryLock(2), Read(2), CmpSet(2)];
  }

  /** Unlocking by a process that does not own the lock changes nothing. */
  lemma UnlockByOther(s: State, p: nat, spin: Uint32)
    requires Safe(s) && Enabled(s, Unlock(p)) && s.at[p] != Critical
    ensures Next(s, Unlock(p), spin) == s
  {
    assert s.at[p := Outside] == s.at;
  }

  /** A run from `s` in which nobody forces the lock of its owner. */
  ghost predicate IsUnforced(s: State, run: seq<State>, steps: seq<Step>, spin: Uint32) {
    && |run| == |steps| + 1 && run[0] == s
    && forall i | 0 <= i < |steps| :: Leads(run, steps, spin, i) && !(steps[i].ForceUnlock? && steps[i].q == s.lock)
  }

  /** When the owner has crashed, the lock stays taken until somebody forces it. */
  lemma {:induction false} StuckUntilForced(s: State, run: seq<State>, steps: seq<Step>, spin: Uint32, i: nat)
    requires Safe(s) && s.lock != 0 && s.at[s.lock] == Crashed && IsUnforced(s, run, steps, spin) && i < |run|
    ensures Safe(run[i]) && run[i].lock == s.lock && s.lock in run[i].at && run[i].at[s.lock] == Crashed
    ensures forall p | p in run[i].at :: run[i].at[p] != Critical
  {
    if i > 0 {
      StuckUntilForced(s, run, steps, spin, i - 1);
      assert Leads(run, steps, spin, i - 1);
      StepKeepsSafe(run[i - 1], steps[i - 1], spin);
    }
  }

  /** And then it is free again. */
  lemma ForcedIsFree(s: State, p: nat, spin: Uint32)
    requires Safe(s) && s.lock != 0 && s.at[s.lock] == Crashed && Enabled(s, ForceUnlock(p, s.lock))
    ensures var s' := Next(s, ForceUnlock(p, s.lock), spin); Safe(s') && s'.lock == 0
  {
    StepKeepsSafe(s, ForceUnlock(p, s.lock), spin);
  }

  // ---------- progress ----------

  /** An attempt at a free lock that nobody disturbs succeeds. */
  lemma FreeLockIsTaken(s: State, p: nat, spin: Uint32)
    requires p in s.at && s.at[p].Reading? && s.lock == 0
    ensures var s1 := Next(s, Read(p), spin);
      Enabled(s1, CmpSet(p)) && var s2 := Next(s1, CmpSet(p), spin); s2.lock == p && s2.at[p] == Critical
  {
  }

  /** On a lock that is taken `trylock` reads the lock word once and leaves everything as it was. */
  lemma TakenLockIsLeft(s: State, p: nat, spin: Uint32)
    requires s.lock != 0 && Enabled(s, TryLock(p))
    ensures var s1 := Next(s, TryLock(p), spin); Enabled(s1, Read(p)) && Next(s1, Read(p), spin) == s
  {
    var s1 := Next(s, TryLock(p), spin);
    assert Next(s1, Read(p), spin).at == s.at;
  }

  /** It does so, too, when the lock is taken after it has been read as free. */
  lemma LostRaceIsLeft(s: State, s': State, p: nat, spin: Uint32)
    requires s.lock == 0 && Enabled(s, TryLock(p))
    requires s' == Next(Next(s, TryLock(p), spin), Read(p), spin).(lock := s'.lock) && s'.lock != 0
    ensures Enabled(s', CmpSet(p)) && Next(s', CmpSet(p), spin) == s.(lock := s'.lock)
  {
    assert Next(s', CmpSet(p), spin).at == s.at;
  }

  ghost function StepsOf(p: nat, steps: seq<Step>): nat {
    if steps == [] then 0 else StepsOf(p, steps[..|steps| - 1]) + if steps[|steps| - 1].p == p then 1 else 0
  }

  /** From the call `call` of the process `p` on, which does not crash, anything may happen. */
  ghost predicate IsCall(p: nat, call: Step, run: seq<State>, steps: seq<Step>, spin: Uint32) {
    && |run| == |steps| + 1 && steps != [] && steps[0] == call && call.p == p
    && forall i | 0 <= i < |steps| :: Leads(run, steps, spin, i) && steps[i] != Crash(p)
  }

  ghost predicate Trying(place: Place) { place == Reading(Only) || place == Setting(Only) }

  /** The last step of an attempt takes the lock if it is free, and leaves it alone otherwise. */
  ghost predicate Answered(s: State, s': State, p: nat) {
    && p in s'.at && s'.at[p] == (if s.lock == 0 then Critical else Outside)
    && s'.lock == if s.lock == 0 then p else s.lock
  }

  lemma TryingGoesOn(s: State, t: Step, p: nat, spin: Uint32)
    requires p in s.at && Trying(s.at[p]) && Enabled(s, t) && t != Crash(p)
    ensures var s' := Next(s, t, spin);
      if t.p != p then p in s'.at && s'.at[p] == s.at[p]
      else Answered(s, s', p) || (p in s'.at && s.at[p] == Reading(Only) && s'.at[p] == Setting(Only))
  {
  }

  lemma {:induction false} TryingSoFar(p: nat, run: seq<State>, steps: seq<Step>, spin: Uint32, i: nat)
    requires IsCall(p, TryLock(p), run, steps, spin) && 1 <= i < |run|
    requires forall j | 1 <= j < i :: p in run[j].at && Trying(run[j].at[p])
    ensures p in run[i].at && var place := run[i].at[p];
      if Trying(place) then StepsOf(p, steps[..i]) == if place == Reading(Only) then 1 else 2
      else Answered(run[i - 1], run[i], p) && StepsOf(p, steps[..i]) <= 3
  {
    assert steps[..i][..i - 1] == steps[..i - 1] && Leads(run, steps, spin, i - 1);
    if i > 1 {
      hide Next, Enabled;
      TryingSoFar(p, run, steps, spin, i - 1);
      TryingGoesOn(run[i - 1], steps[i - 1], p, spin);
    } else {
      assert steps[..0] == [];
    }
  }

  /** Whatever the others do, `trylock` is over after at most two more steps: until then the process
      neither pauses nor yields, and then it has the lock or is where it was. */
  lemma {:induction false} TrylockEnds(p: nat, run: seq<State>, steps: seq<Step>, spin: Uint32) returns (k: nat)
    requires IsCall(p, TryLock(p), run, steps, spin) && StepsOf(p, steps) >= 3
    ensures 1 <= k < |run| && StepsOf(p, steps[..k]) <= 3
    ensures Answered(run[k - 1], run[k], p)
    ensures forall j | 1 <= j < k :: p in run[j].at && Trying(run[j].at[p])
  {
    hide Answered, Leads;
    k := 1;
    assert steps[..|steps|] == steps;
    TryingSoFar(p, run, steps, spin, 1);
    while Trying(run[k].at[p])
      invariant 1 <= k < |run| && p in run[k].at
      invariant forall j | 1 <= j < k :: p in run[j].at && Trying(run[j].at[p])
      decreases |run| - k
    {
      TryingSoFar(p, run, steps, spin, k);
      TryingSoFar(p, run, steps, spin, k + 1);
      k := k + 1;
    }
    TryingSoFar(p, run, steps, spin, k);
  }

  /** The process has called `lock` and does not have it yet. */
  ghost predicate Contending(place: Place) {
    match place
    case Reading(a) => !a.Only?
    case Setting(a) => !a.Only?
    case Pausing(_, _) => true
    case Yielding => true
    case _ => false
  }

  /** `lock` does not give up: until it has the lock the process goes on trying. */
  lemma {:induction false} LockGoesOn(p: nat, run: seq<State>, steps: seq<Step>, spin: Uint32, i: nat)
    requires IsCall(p, Lock(p), run, steps, spin) && 1 <= i < |run|
    requires forall j | 1 <= j <= i :: p in run[j].at ==> run[j].at[p] != Critical
    ensures p in run[i].at && Contending(run[i].at[p])
  {
    assert Leads(run, steps, spin, i - 1);
    if i > 1 { LockGoesOn(p, run, steps, spin, i - 1); }
  }

  /** A power of two, or 0 after the wrap-around. */
  ghost predicate IsLength(n: Uint32) { n == 0 || exists k: nat :: k < 32 && n == Pow2(k) }

  lemma DoubledIsLength(n: Uint32)
    requires IsLength(n)
    ensures Doubled(n) <= 0x8000_0000 && IsLength(Doubled(n))
  {
    if n != 0 {
      var k: nat :| k < 32 && n == Pow2(k);
      assert Pow2(k + 1) == 2 * n;
      hide Pow2;
      Pow2Of32();
      if k < 31 {
        Pow2Monotone(k + 1, 31);
        assert Doubled(n) == Pow2(k + 1);
      }
    }
  }

  /** With a `spin` above 2^31 the length of the pauses wraps around to 0 and a round never ends. */
  ghost predicate HasLength(place: Place) {
    match place
    case Reading(a) => a.After? ==> IsLength(a.n)
    case Setting(a) => a.After? ==> IsLength(a.n)
    case Pausing(n, _) => IsLength(n)
    case Yielding => false
    case _ => true
  }

  lemma StepKeepsLengths(s: State, t: Step, spin: Uint32)
    requires spin > 0x8000_0000 && Enabled(s, t) && HasLength(s.at[t.p])
    ensures t.p in Next(s, t, spin).at && HasLength(Next(s, t, spin).at[t.p])
  {
    var place := s.at[t.p];
    assert Pow2(0) == 1 && IsLength(1);
    if (t.Read? || t.CmpSet?) && place.attempt.After? { DoubledIsLength(place.attempt.n); }
  }

  /** Then nobody ever yields, in any execution at all. */
  lemma {:induction false} NobodyYields(run: seq<State>, steps: seq<Step>, spin: Uint32, i: nat, p: nat)
    requires IsExecution(run, steps, spin) && spin > 0x8000_0000 && i < |run| && p in run[i].at
    ensures HasLength(run[i].at[p]) && run[i].at[p] != Yielding
  {
    if i > 0 {
      var s, t := run[i - 1], steps[i - 1];
      assert Leads(run, steps, spin, i - 1);
      NobodyYields(run, steps, spin, i - 1, p);
      if p == t.p { StepKeepsLengths(s, t, spin); }
    }
  }

  /** The most steps that a process takes from a pause of the length `n` to the end of the round. */
  ghost function StepsFrom(n: nat, spin: Uint32): nat
    requires n > 0
    decreases spin - n
  {
    if n >= spin then 0 else n + 3 + StepsFrom(2 * n, spin)
  }

  /** The process is in a round of back-off that can still end. */
  ghost predicate InRound(place: Place, spin: Uint32) {
    match place
    case Reading(a) => !a.Only? && (a.After? ==> 0 < a.n < spin)
    case Setting(a) => !a.Only? && (a.After? ==> 0 < a.n < spin)
    case Pausing(n, left) => 0 < n < spin
    case _ => false
  }

  /** The most steps that the process still takes in its round. */
  ghost function Remaining(place: Place, spin: Uint32): nat
    requires InRound(place, spin)
  {
    match place
    case Reading(a) => 2 + StepsFrom(if a.First? then 1 else 2 * a.n, spin)
    case Setting(a) => 1 + StepsFrom(if a.First? then 1 else 2 * a.n, spin)
    case Pausing(n, left) => left + 3 + StepsFrom(2 * n, spin)
  }

  /** Each step of the process gets it closer to the end of the round, and steps of others do not set
      it back. */
  lemma RoundGoesOn(s: State, t: Step, p: nat, spin: Uint32)
    requires spin <= 0x8000_0000 && p in s.at && InRound(s.at[p], spin) && Enabled(s, t) && t != Crash(p)
    ensures var place := Next(s, t, spin).at[p];
      if t.p != p then place == s.at[p]
      else
        || place == Critical || place == Yielding
        || (InRound(place, spin) && Remaining(place, spin) < Remaining(s.at[p], spin))
  {
  }

  /** From `run[0]` on, where the process begins a round, it does not crash and does not get the lock. */
  ghost predicate IsWaiting(p: nat, run: seq<State>, steps: seq<Step>, spin: Uint32) {
    && |run| == |steps| + 1 && p in run[0].at && run[0].at[p] == Reading(First)
    && (forall i | 0 <= i < |steps| :: Leads(run, steps, spin, i) && steps[i] != Crash(p))
    && (forall i | 0 <= i < |run| :: p in run[i].at ==> run[i].at[p] != Critical)
  }

  lemma {:induction false} RoundSoFar(p: nat, run: seq<State>, steps: seq<Step>, spin: Uint32, i: nat)
    requires spin <= 0x8000_0000 && IsWaiting(p, run, steps, spin) && i < |run|
    requires forall j | 0 <= j < |run| :: p in run[j].at ==> run[j].at[p] != Yielding
    ensures p in run[i].at && InRound(run[i].at[p], spin)
    ensures Remaining(run[i].at[p], spin) + StepsOf(p, steps[..i]) <= Remaining(Reading(First), spin)
  {
    if i > 0 {
      RoundSoFar(p, run, steps, spin, i - 1);
      assert steps[..i][..i - 1] == steps[..i - 1] && Leads(run, steps, spin, i - 1);
      RoundGoesOn(run[i - 1], steps[i - 1], p, spin);
    }
  }

  /** With a `spin` of at most 2^31 every round ends: whatever the others do, a process that has taken
      a number of steps without getting the lock has yielded. */
  lemma RoundEnds(p: nat, run: seq<State>, steps: seq<Step>, spin: Uint32)
    requires spin <= 0x8000_0000 && IsWaiting(p, run, steps, spin)
    requires StepsOf(p, steps) >= Remaining(Reading(First), spin)
    ensures exists i :: 0 <= i < |run| && p in run[i].at && run[i].at[p] == Yielding
  {
    assert steps[..|steps|] == steps;
    if forall j | 0 <= j < |run| :: p in run[j].at ==> run[j].at[p] != Yielding {
      RoundSoFar(p, run, steps, spin, |steps|);
    }
  }

  /** The step that a process takes in a round while the lock is taken. */
  function OwnStep(place: Place, p: nat): Step {
    match place
    case Pausing(_, _) => Pause(p)
    case Yielding => Yield(p)
    case _ => Read(p)
  }

  /** The state after `k` steps of a process that always finds the lock taken. */
  ghost function Waiting(s: State, p: nat, spin: Uint32, k: nat): (s': State)
    requires s.lock != 0 && p in s.at && s.at[p] == Reading(First)
    ensures s'.lock == s.lock && p in s'.at
    ensures (s'.at[p].Reading? && !s'.at[p].attempt.Only?) || s'.at[p].Pausing? || s'.at[p] == Yielding
  {
    if k == 0 then s else
      var w := Waiting(s, p, spin, k - 1);
      Next(w, OwnStep(w.at[p], p), spin)
  }

  lemma {:induction false} WaitingHasLength(s: State, p: nat, spin: Uint32, k: nat)
    requires s.lock != 0 && p in s.at && s.at[p] == Reading(First) && spin > 0x8000_0000
    ensures HasLength(Waiting(s, p, spin, k).at[p])
  {
    if k > 0 {
      WaitingHasLength(s, p, spin, k - 1);
      var w := Waiting(s, p, spin, k - 1);
      StepKeepsLengths(w, OwnStep(w.at[p], p), spin);
    }
  }

  lemma {:induction false} WaitingEnds(s: State, p: nat, spin: Uint32, k: nat) returns (m: nat)
    requires s.lock != 0 && p in s.at && s.at[p] == Reading(First) && spin <= 0x8000_0000
    requires InRound(Waiting(s, p, spin, k).at[p], spin)
    ensures Waiting(s, p, spin, m).at[p] == Yielding
    decreases Remaining(Waiting(s, p, spin, k).at[p], spin)
  {
    var w := Waiting(s, p, spin, k);
    RoundGoesOn(w, OwnStep(w.at[p], p), p, spin);
    m := k + 1;
    if Waiting(s, p, spin, m).at[p] != Yielding { m := WaitingEnds(s, p, spin, m); }
  }

  /** A process that always finds the lock taken comes to the end of its round exactly when `spin` is at
      most 2^31. */
  lemma BackOffEnds(s: State, p: nat, spin: Uint32)
    requires s.lock != 0 && p in s.at && s.at[p] == Reading(First)
    ensures (exists k: nat :: Waiting(s, p, spin, k).at[p] == Yielding) <==> spin <= 0x8000_0000
  {
    if spin <= 0x8000_0000 {
      assert Waiting(s, p, spin, 0) == s;
      var m := WaitingEnds(s, p, spin, 0);
    } else {
      forall k: nat
        ensures Waiting(s, p, spin, k).at[p] != Yielding
      {
        WaitingHasLength(s, p, spin, k);
      }
    }
  }

  /** How often a process that always finds the lock taken has paused in its first `k` steps. */
  ghost function PausesOf(s: State, p: nat, spin: Uint32, k: nat): nat
    requires s.lock != 0 && p in s.at && s.at[p] == Reading(First)
  {
    if k == 0 then 0
    else
      var place := Waiting(s, p, spin, k - 1).at[p];
      PausesOf(s, p, spin, k - 1) + if place.Pausing? && place.left > 0 then 1 else 0
  }

  /** How often the process has paused in its first round, from where it is. */
  ghost predicate HasPaused(place: Place, pauses: nat, spin: Uint32) {
    match place
    case Reading(First) => pauses == 0
    case Reading(After(n)) => n < spin && n > 0 && IsLength(n) && pauses == 2 * n - 1
    case Pausing(n, left) => n < spin && n > 0 && IsLength(n) && left <= n && pauses == 2 * n - 1 - left
    case Yielding => RoundedUp(pauses + 1, spin)
    case _ => false
  }

  /** The least power of two that is at least `spin`. */
  ghost predicate RoundedUp(n: nat, spin: nat) {
    n >= spin && (n > 1 ==> n / 2 < spin) && exists k: nat :: n == Pow2(k)
  }

  lemma NextLength(n: Uint32, spin: Uint32)
    requires 0 < n < spin <= 0x8000_0000 && IsLength(n)
    ensures Doubled(n) == 2 * n && IsLength(2 * n) && (2 * n >= spin ==> RoundedUp(2 * n, spin))
  {
    var k: nat :| k < 32 && n == Pow2(k);
    assert Pow2(k + 1) == 2 * n;
    DoubledIsLength(n);
  }

  lemma {:induction false} PausesSoFar(s: State, p: nat, spin: Uint32, k: nat)
    requires s.lock != 0 && p in s.at && s.at[p] == Reading(First) && spin <= 0x8000_0000
    requires forall j: nat | j < k :: Waiting(s, p, spin, j).at[p] != Yielding
    ensures HasPaused(Waiting(s, p, spin, k).at[p], PausesOf(s, p, spin, k), spin)
  {
    if k > 0 {
      PausesSoFar(s, p, spin, k - 1);
      var place := Waiting(s, p, spin, k - 1).at[p];
      assert Pow2(0) == 1 && IsLength(1) && 2 * Pow2(0) - 1 == 1;
      if place.Reading? && place.attempt.After? { NextLength(place.attempt.n, spin); }
    }
  }

  /** By the end of its first round a process that always finds the lock taken has paused one time less
      than the power of two that `spin` is rounded up to. */
  lemma PausesOfRound(s: State, p: nat, spin: Uint32, k: nat)
    requires s.lock != 0 && p in s.at && s.at[p] == Reading(First) && spin <= 0x8000_0000
    requires Waiting(s, p, spin, k).at[p] == Yielding
    requires forall j: nat | j < k :: Waiting(s, p, spin, j).at[p] != Yielding
    ensures RoundedUp(PausesOf(s, p, spin, k) + 1, spin)
  {
    PausesSoFar(s, p, spin, k);
  }

  /** A round in which the lock is never free: the number of pauses is one less than the power of
      two that `spin` is rounded up to. */
  method BackOffRound(spin: Uint32) returns (pauses: nat)
    requires spin <= 0x8000_0000
    ensures RoundedUp(pauses + 1, spin)
  {
    Pow2Of32();
    var n: Uint32 := 1;
    pauses := 0;
    ghost var k := 0;
    while n < spin
      invariant n == Pow2(k) == pauses + 1 && n <= 0x8000_0000 && (k > 0 ==> Pow2(k - 1) < spin)
      decreases 0x1_0000_0000 - n
    {
      if k < 31 { Pow2Monotone(k + 1, 31); } else { Pow2Monotone(31, k); }
      for i := 0 to n
        invariant pauses == n - 1 + i
      {
        pauses := pauses + 1;
      }
      n := Doubled(n);
      k := k + 1;
    }
  }
}
