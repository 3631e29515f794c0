/** The futex lock: any number of threads, interleaved between any two atomic steps. */
module Mutex {

  /** Where a thread stands: outside, about to exchange 1 into the flag, about to wait
      because the exchange returned 1, asleep in the kernel, owning the lock, or having
      cleared the flag and about to wake a waiter. */
  datatype Place = Outside | Trying | Refused | Asleep | Owner | Waking

  datatype State = State(flag: int, at: seq<Place>)

  function Count(at: seq<Place>, p: Place): nat {
    if at == [] then 0 else (if at[0] == p then 1 else 0) + Count(at[1..], p)
  }

  predicate Initial(s: State) { s.flag == 0 && forall i :: 0 <= i < |s.at| ==> s.at[i] == Outside }

  // ----- the atomic steps of thread i

  predicate Calls(s: State, t: State, i: nat) {
    i < |s.at| && s.at[i] == Outside && t == s.(at := s.at[i := Trying])
  }

  /** The exchange in mutex_acquire: the old flag decides who owns the lock. */
  predicate Exchanges(s: State, t: State, i: nat) {
    i < |s.at| && s.at[i] == Trying && t == State(1, s.at[i := if s.flag == 0 then Owner else Refused])
  }

  /** FUTEX_WAIT sleeps only if the flag is still 1, and else returns to the tail call. */
  predicate Waits(s: State, t: State, i: nat) {
    i < |s.at| && s.at[i] == Refused && t == s.(at := s.at[i := if s.flag == 1 then Asleep else Trying])
  }

  predicate WakesAlone(s: State, t: State, i: nat) {
    i < |s.at| && s.at[i] == Asleep && t == s.(at := s.at[i := Trying])
  }

  /** The exchange in mutex_release, which only the owner calls. */
  predicate Releases(s: State, t: State, i: nat) {
    i < |s.at| && s.at[i] == Owner && t == State(0, s.at[i := Waking])
  }

  /** FUTEX_WAKE of one: some sleeper j, if there is one, goes back to trying. */
  predicate Wakes(s: State, t: State, i: nat, j: nat) {
    && i < |s.at| && s.at[i] == Waking
    && if Asleep in s.at then j < |s.at| && s.at[j] == Asleep && t == s.(at := s.at[i := Outside][j := Trying])
       else t == s.(at := s.at[i := Outside])
  }

  /** A step of a thread that is already inside mutex_acquire or mutex_release. */
  predicate Inside(s: State, t: State, i: nat, j: nat) {
    Exchanges(s, t, i) || Waits(s, t, i) || Wakes(s, t, i, j)
  }

  ghost predicate Next(s: State, t: State) {
    exists i: nat, j: nat :: Step(s, t, i, j)
  }

  predicate Step(s: State, t: State, i: nat, j: nat) {
    Inside(s, t, i, j) || Calls(s, t, i) || WakesAlone(s, t, i) || Releases(s, t, i)
  }

  // ----- the invariant

  /** The flag is the number of owners, and so 0 or 1. */
  predicate Exclusive(s: State) { s.flag == Count(s.at, Owner) && s.flag <= 1 }

  /** Whenever someone sleeps, someone is there to wake up for: an owner, a releaser yet
      to issue its wake, or an awake thread inside mutex_acquire. */
  predicate NoLostWakeup(s: State) {
    Asleep in s.at ==> Owner in s.at || Waking in s.at || Trying in s.at || Refused in s.at
  }

  predicate Inv(s: State) { Exclusive(s) && NoLostWakeup(s) }

  lemma {:induction false} CountChange(at: seq<Place>, i: nat, q: Place, p: Place)
    requires i < |at|
    ensures Count(at[i := q], p) + (if at[i] == p then 1 else 0) == Count(at, p) + (if q == p then 1 else 0)
    decreases i
  {
    if i == 0 {
      assert at[i := q][1..] == at[1..];
    } else {
      assert at[i := q][1..] == at[1..][i - 1 := q];
      CountChange(at[1..], i - 1, q, p);
    }
  }

  lemma {:induction false} CountZero(at: seq<Place>, p: Place)
    ensures Count(at, p) == 0 <==> p !in at
    decreases at
  {
    if at != [] {
      CountZero(at[1..], p);
      assert at == [at[0]] + at[1..];
    }
  }

  /** With one owner, every other thread is not the owner. */
  lemma {:induction false} OnlyOne(at: seq<Place>, i: nat, j: nat)
    requires i < j < |at| && at[i] == Owner && at[j] == Owner
    ensures Count(at, Owner) >= 2
    decreases i
  {
    if i == 0 {
      CountZero(at[1..], Owner);
      assert at[1..][j - 1] == Owner;
    } else {
      OnlyOne(at[1..], i - 1, j - 1);
    }
  }

  lemma InitInv(s: State)
    requires Initial(s)
    ensures Inv(s)
  {
    CountZero(s.at, Owner);
  }

  lemma StepKeepsExclusive(s: State, t: State, i: nat, j: nat)
    requires Step(s, t, i, j) && Exclusive(s)
    ensures Exclusive(t)
  {
    hide Count;
    CountZero(s.at, Owner);
    CountChange(s.at, i, t.at[i], Owner);
    CountChange(s.at, i, Outside, Owner);
    if j < |s.at| {
      CountChange(s.at[i := Outside], j, Trying, Owner);
    }
  }

  lemma StepKeepsWakeups(s: State, t: State, i: nat, j: nat)
    requires Step(s, t, i, j) && Inv(s)
    ensures NoLostWakeup(t)
  {
    hide Count;
    CountZero(s.at, Owner);
    if Asleep in t.at {
      if Wakes(s, t, i, j) {
        var k :| 0 <= k < |t.at| && t.at[k] == Asleep;
        assert s.at[k] == Asleep;
        assert t.at[j] == Trying;
      } else if Waits(s, t, i) {
        if s.flag == 1 {
          var o :| 0 <= o < |s.at| && s.at[o] == Owner;
          assert t.at[o] == Owner;
        } else {
          assert t.at[i] == Trying;
        }
      } else {
        assert t.at[i] == Trying || t.at[i] == Owner || t.at[i] == Refused || t.at[i] == Waking;
      }
    }
  }

  ghost predicate Run(run: seq<State>) {
    run != [] && Initial(run[0]) && forall k :: 0 <= k < |run| - 1 ==> Follows(run, k)
  }

  ghost predicate Follows(run: seq<State>, k: nat)
    requires k + 1 < |run|
  {
    Next(run[k], run[k + 1])
  }

  /** Every state of every run keeps the invariant. */
  lemma {:induction false} RunKeepsInv(run: seq<State>, k: nat)
    requires Run(run) && k < |run|
    ensures Inv(run[k])
    decreases k
  {
    hide Inv, Initial, Step;
    if k == 0 {
      InitInv(run[0]);
    } else {
      RunKeepsInv(run, k - 1);
      assert Follows(run, k - 1);
      var i: nat, j: nat :| Step(run[k - 1], run[k], i, j);
      StepKeepsInv(run[k - 1], run[k], i, j);
    }
  }

  lemma StepKeepsInv(s: State, t: State, i: nat, j: nat)
    requires Step(s, t, i, j) && Inv(s)
    ensures Inv(t)
  {
    StepKeepsExclusive(s, t, i, j);
    StepKeepsWakeups(s, t, i, j);
  }

  /** Two threads never own the lock at once, and the flag is 1 exactly when one does. */
  lemma MutualExclusion(run: seq<State>, k: nat, i: nat, j: nat)
    requires Run(run) && k < |run| && i < |run[k].at| && j < |run[k].at|
    requires run[k].at[i] == Owner && run[k].at[j] == Owner
    ensures i == j && run[k].flag == 1
  {
    RunKeepsInv(run, k);
    CountZero(run[k].at, Owner);
    if i < j {
      OnlyOne(run[k].at, i, j);
    } else if j < i {
      OnlyOne(run[k].at, j, i);
    }
  }

  lemma FlagTells(run: seq<State>, k: nat)
    requires Run(run) && k < |run|
    ensures run[k].flag == 1 <==> Owner in run[k].at
    ensures run[k].flag == 0 <==> Owner !in run[k].at
  {
    RunKeepsInv(run, k);
    CountZero(run[k].at, Owner);
  }

  // ----- a free lock with sleepers does not stay free

  /** Steps that threads inside acquire or release can take on their own. */
  ghost predicate Reaches(s: State, t: State, n: nat)
    decreases n
  {
    if n == 0 then s == t else exists u: State, i: nat, j: nat :: Inside(s, u, i, j) && Reaches(u, t, n - 1)
  }

  lemma OneStep(s: State, u: State, i: nat, j: nat, t: State, n: nat)
    requires Inside(s, u, i, j) && Reaches(u, t, n)
    ensures Reaches(s, t, n + 1)
  {}

  /** A trying thread gets a free lock in one step. */
  lemma TryingTakes(s: State, i: nat) returns (t: State)
    requires i < |s.at| && s.at[i] == Trying && s.flag == 0
    ensures Owner in t.at && Reaches(s, t, 1)
  {
    t := State(1, s.at[i := Owner]);
    assert Exchanges(s, t, i);
    assert t.at[i] == Owner;
    assert Reaches(t, t, 0);
    OneStep(s, t, i, 0, t, 0);
  }

  /** If threads sleep while the lock is free, at most two steps of threads already inside
      acquire or release make one of them the owner: no new call or release is needed. */
  lemma FreeLockIsTaken(s: State) returns (t: State, n: nat)
    requires Inv(s) && s.flag == 0 && Asleep in s.at
    ensures n <= 2 && Reaches(s, t, n) && Owner in t.at
  {
    CountZero(s.at, Owner);
    if Trying in s.at {
      var i :| 0 <= i < |s.at| && s.at[i] == Trying;
      t := TryingTakes(s, i);
      n := 1;
    } else if Refused in s.at {
      var i :| 0 <= i < |s.at| && s.at[i] == Refused;
      var u := s.(at := s.at[i := Trying]);
      assert Waits(s, u, i);
      t := TryingTakes(u, i);
      OneStep(s, u, i, 0, t, 1);
      n := 2;
    } else {
      var i :| 0 <= i < |s.at| && s.at[i] == Waking;
      var j :| 0 <= j < |s.at| && s.at[j] == Asleep;
      var u := s.(at := s.at[i := Outside][j := Trying]);
      assert Wakes(s, u, i, j);
      t := TryingTakes(u, j);
      OneStep(s, u, i, j, t, 1);
      n := 2;
    }
  }

  // ----- the lock as shared memory

  class Lock {
    var flag: int
    ghost var at: seq<Place>

    ghost function Now(): State
      reads this
    {
      State(flag, at)
    }

    constructor Init(ghost threads: nat)
      ensures Initial(Now()) && Inv(Now()) && |at| == threads
    {
      flag := 0;
      at := seq(threads, i requires 0 <= i < threads => Outside);
      new;
      InitInv(Now());
    }

    /** The atomic exchange. */
    method Xchg(value: int) returns (was: int)
      modifies `flag
      ensures was == old(flag) && flag == value
    {
      was, flag := flag, value;
    }

    /** mutex_acquire up to its return or its futex call. */
    method Acquire(ghost me: nat) returns (owns: bool)
      requires me < |at| && at[me] == Trying && Inv(Now())
      modifies this
      ensures Exchanges(old(Now()), Now(), me) && Inv(Now())
      ensures owns == (old(flag) == 0) && flag == 1 && at == old(at)[me := if owns then Owner else Refused]
    {
      ghost var before := Now();
      var was := Xchg(1);
      owns := was == 0;
      at := at[me := if was == 0 then Owner else Refused];
      StepKeepsInv(before, Now(), me, 0);
    }

    /** FUTEX_WAIT on the value 1: whether the thread was put to sleep. */
    method Wait(ghost me: nat) returns (sleeps: bool)
      requires me < |at| && at[me] == Refused && Inv(Now())
      modifies this
      ensures Waits(old(Now()), Now(), me) && Inv(Now())
      ensures sleeps == (old(flag) == 1) && flag == old(flag) && at == old(at)[me := if sleeps then Asleep else Trying]
    {
      ghost var before := Now();
      sleeps := flag == 1;
      at := at[me := if flag == 1 then Asleep else Trying];
      StepKeepsInv(before, Now(), me, 0);
    }

    /** mutex_release up to its futex call. */
    method Release(ghost me: nat)
      requires me < |at| && at[me] == Owner && Inv(Now())
      modifies this
      ensures Releases(old(Now()), Now(), me) && Inv(Now())
      ensures flag == 0 && at == old(at)[me := Waking]
    {
      ghost var before := Now();
      var _ := Xchg(0);
      at := at[me := Waking];
      StepKeepsInv(before, Now(), me, 0);
    }

    /** FUTEX_WAKE of one: the kernel picks a sleeper if there is one. */
    method Wake(ghost me: nat, ghost sleeper: nat)
      requires me < |at| && at[me] == Waking && Inv(Now())
      requires Asleep in at ==> sleeper < |at| && at[sleeper] == Asleep
      modifies this
      ensures Wakes(old(Now()), Now(), me, sleeper) && Inv(Now())
      ensures flag == old(flag) && |at| == |old(at)|
      ensures forall i :: 0 <= i < |at| ==>
                at[i] == if Asleep in old(at) && i == sleeper then Trying else if i == me then Outside else old(at)[i]
    {
      ghost var before := Now();
      at := if Asleep in at then at[me := Outside][sleeper := Trying] else at[me := Outside];
      StepKeepsInv(before, Now(), me, sleeper);
    }
  }
}
