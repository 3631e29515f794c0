/** The scheduler's round and the table operations that run between rounds, on
    a process table updated in place. */
module Mlfq {
  import opened MlfqSpec

  lemma {:induction false} ScanIndexBelow(t: seq<Proc>, n: nat)
    requires n < |t| && ValidTable(t)
    ensures var (tar, p) := (Scan(t, n), t[n]);
            Scan(t, n + 1) == if p.state == RUNNABLE && (tar[p.priority] == NONE || p.wait[p.priority] > t[tar[p.priority]].wait[p.priority])
                              then tar[p.priority := n] else tar
  {
    assert ValidProc(t[n]);
  }

  lemma ScanNothing(t: seq<Proc>)
    requires ValidTable(t)
    ensures Scan(t, 0) == [NONE, NONE, NONE, NONE]
  {}

  lemma AllocKeeps(t: seq<Proc>, p: int, q: Proc)
    requires ValidTable(t) && DistinctPids(t) && 0 <= p < NPROC && t[p].state == UNUSED
    requires q.priority == 3 && q.wait == q.done == ZEROS
    requires forall i :: 0 <= i < NPROC ==> t[i].pid < q.pid
    ensures Between(t, t[p := q]) && ValidTable(t[p := q])
  {}

  class Scheduler {
    const ptable: array<Proc>
    var proc: int
    var flag: bool
    var tar: seq<int>
    var nextpid: int

    ghost predicate Valid()
      reads this, ptable
    {
      && Consistent()
      && forall i :: 0 <= i < NPROC ==> ptable[i].pid < nextpid
    }

    ghost predicate Consistent()
      reads this, ptable
    {
      ptable.Length == NPROC && Inv(State())
    }

    ghost function State(): Sched
      reads this, ptable
    {
      Sched(ptable[..], proc, flag, tar)
    }

    constructor ()
      ensures Valid() && fresh(ptable)
      ensures State() == Sched(seq(NPROC, _ => Proc(UNUSED, 0, 0, 0, ZEROS, ZEROS)), NONE, false, [NONE, NONE, NONE, NONE])
    {
      ptable := new Proc[NPROC](_ => Proc(UNUSED, 0, 0, 0, ZEROS, ZEROS));
      proc, flag, tar, nextpid := NONE, false, [NONE, NONE, NONE, NONE], 1;
    }

    /** From taking the table lock to switching to the chosen process; `ran` is
        false when there is no process to switch to. */
    method RunRound() returns (ran: bool)
      requires Consistent()
      modifies this, ptable
      ensures State() == Round(old(State()))
      ensures ran <==> proc != NONE
    {
      ghost var s := State();
      ScanIndices(s.table);
      CheckPreemption();
      if flag {
        RescanLevels();
      }
      ChooseTarget();
      if proc == NONE {
        return false;
      }
      assert ptable[proc] == s.table[proc];
      AgeOthers();
      assert ptable[proc] == s.table[proc];
      ChargeChosen();
      return true;
    }

    /** Sets `flag` if a RUNNABLE process is above the current one, or there is none. */
    method CheckPreemption()
      requires Consistent()
      modifies `flag
      ensures flag == Rescans(old(State()))
    {
      ghost var s := State();
      if proc != NONE {
        var p := 0;
        while p < NPROC
          invariant 0 <= p <= NPROC && flag == s.flag
          invariant forall i :: 0 <= i < p ==> !(s.table[i].state == RUNNABLE && s.table[i].priority > s.table[proc].priority)
        {
          if ptable[p].state == RUNNABLE && ptable[p].priority > ptable[proc].priority {
            assert s.table[p] == ptable[p];
            flag := true;
            break;
          }
          p := p + 1;
        }
      } else {
        flag := true;
      }
    }

    method RescanLevels()
      requires ptable.Length == NPROC && ValidTable(ptable[..])
      modifies `tar, `flag
      ensures tar == Scan(ptable[..], NPROC) && !flag
    {
      hide Best;
      ghost var t := ptable[..];
      tar := [NONE, NONE, NONE, NONE];
      ScanNothing(t);
      var p := 0;
      while p < NPROC
        invariant 0 <= p <= NPROC && tar == Scan(t, p)
      {
        ScanIndexBelow(t, p);
        assert ptable[p] == t[p] && ValidProc(t[p]);
        if ptable[p].state == RUNNABLE {
          var l := ptable[p].priority;
          if tar[l] == NONE || ptable[p].wait[l] > ptable[tar[l]].wait[l] {
            tar := tar[l := p];
          }
        }
        p := p + 1;
      }
      flag := false;
    }

    method ChooseTarget()
      requires |tar| == 4
      modifies `proc
      ensures proc == Choose(tar, old(proc))
    {
      for i := 0 to 4
        invariant proc == if i > 3 && tar[3] != NONE then tar[3] else if i > 2 && tar[2] != NONE then tar[2]
                          else if i > 1 && tar[1] != NONE then tar[1] else if i > 0 && tar[0] != NONE then tar[0]
                          else old(proc)
      {
        if tar[i] != NONE { proc := tar[i]; }
      }
    }

    method AgeOthers()
      requires ptable.Length == NPROC && ValidTable(ptable[..]) && 0 <= proc < NPROC
      modifies ptable
      ensures ptable[..] == AgeUpTo(old(ptable[..]), old(ptable[proc].pid), NPROC)
    {
      ghost var t, pid := ptable[..], ptable[proc].pid;
      var p := 0;
      while p < NPROC
        invariant 0 <= p <= NPROC && ptable[..] == AgeUpTo(t, pid, p) && ptable[proc].pid == pid
      {
        assert ptable[p] == ptable[..][p] == t[p] && ValidProc(t[p]);
        if ptable[p].pid != ptable[proc].pid {
          if ptable[p].state == RUNNABLE {
            var l := ptable[p].priority;
            ptable[p] := ptable[p].(wait := ptable[p].wait[l := ptable[p].wait[l] + 1]);
          }
          if ptable[p].wait[ptable[p].priority] == 10 * TICKS[ptable[p].priority] {
            if ptable[p].priority != 3 {
              var l := ptable[p].priority;
              ptable[p] := ptable[p].(wait := ptable[p].wait[l := 0]);
              ptable[p] := ptable[p].(priority := l + 1);
            }
          }
        }
        p := p + 1;
      }
    }

    method ChargeChosen()
      requires ptable.Length == NPROC && 0 <= proc < NPROC && ValidProc(ptable[proc]) && !flag
      modifies ptable, `flag
      ensures ptable[..] == old(ptable[..])[proc := Charged(old(ptable[proc]))]
      ensures flag == SliceEnds(old(ptable[proc]))
    {
      ghost var q := ptable[proc];
      for i := 0 to 4
        invariant ptable[..] == old(ptable[..])[proc := q.(wait := ptable[proc].wait)]
        invariant |ptable[proc].wait| == 4 && !flag
        invariant forall k :: 0 <= k < i ==> ptable[proc].wait[k] == 0
      {
        ptable[proc] := ptable[proc].(wait := ptable[proc].wait[i := 0]);
      }
      assert ptable[proc] == q.(wait := ptable[proc].wait);
      assert ptable[proc].wait == ZEROS;
      assert ptable[proc].done == q.done && ptable[proc].priority == q.priority;
      var l := ptable[proc].priority;
      ptable[proc] := ptable[proc].(done := ptable[proc].done[l := ptable[proc].done[l] + 1]);
      if ptable[proc].done[l] % TICKS[l] == 0 && l != 0 {
        flag := true;
        ptable[proc] := ptable[proc].(priority := l - 1);
      }
      ptable[proc] := ptable[proc].(state := RUNNING);
    }

    /** Takes the first UNUSED slot for a new process at level 3 with clean counters. */
    method AllocProc(stackAvailable: bool) returns (p: int)
      requires Valid()
      modifies ptable, `nextpid
      ensures Valid() && State().(table := old(State()).table) == old(State())
      ensures Between(old(ptable[..]), ptable[..])
      ensures p == NONE || (0 <= p < NPROC && old(ptable[p].state) == UNUSED && ptable[p].pid == old(nextpid)
                            && ptable[..] == old(ptable[..])[p := Proc(EMBRYO, old(nextpid), old(ptable[p].chan), 3, ZEROS, ZEROS)])
      ensures p == NONE <==> !stackAvailable || forall i :: 0 <= i < NPROC ==> old(ptable[i].state) != UNUSED
      ensures p == NONE ==> forall i :: 0 <= i < NPROC && old(ptable[i].state) != UNUSED ==> ptable[i] == old(ptable[i])
    {
      ghost var t, n := ptable[..], nextpid;
      p := 0;
      while p < NPROC && ptable[p].state != UNUSED
        invariant 0 <= p <= NPROC
        invariant forall i :: 0 <= i < p ==> ptable[i].state != UNUSED
      {
        p := p + 1;
      }
      if p == NPROC {
        return NONE;
      }
      ghost var q := p;
      ptable[p] := Proc(EMBRYO, nextpid, ptable[p].chan, 3, ZEROS, ZEROS);
      nextpid := nextpid + 1;
      if !stackAvailable {
        ptable[p] := ptable[p].(state := UNUSED);
        p := NONE;
      }
      assert ptable[..] == t[q := ptable[q]];
      AllocKeeps(t, q, ptable[q]);
    }

    /** Gives up the CPU: the running process is RUNNABLE again. */
    method Yield()
      requires 0 <= proc < ptable.Length
      modifies ptable
      ensures ptable[..] == old(ptable[..])[proc := old(ptable[proc]).(state := RUNNABLE)]
    {
      ptable[proc] := ptable[proc].(state := RUNNABLE);
    }

    method Sleep(chan: int)
      requires 0 <= proc < ptable.Length
      modifies ptable
      ensures ptable[..] == old(ptable[..])[proc := old(ptable[proc]).(state := SLEEPING, chan := chan)]
    {
      ptable[proc] := ptable[proc].(chan := chan);
      ptable[proc] := ptable[proc].(state := SLEEPING);
    }

    /** Wakes every process asleep on `chan` and touches nothing else. */
    method Wakeup1(chan: int)
      requires DistinctPids(ptable[..])
      modifies ptable
      ensures forall i :: 0 <= i < ptable.Length ==>
                ptable[i] == if old(ptable[i].state) == SLEEPING && old(ptable[i].chan) == chan
                             then old(ptable[i]).(state := RUNNABLE) else old(ptable[i])
      ensures Between(old(ptable[..]), ptable[..])
    {
      var p := 0;
      while p < ptable.Length
        invariant 0 <= p <= ptable.Length
        invariant forall i :: 0 <= i < ptable.Length ==>
                    ptable[i] == if i < p && old(ptable[i].state) == SLEEPING && old(ptable[i].chan) == chan
                                 then old(ptable[i]).(state := RUNNABLE) else old(ptable[i])
      {
        if ptable[p].state == SLEEPING && ptable[p].chan == chan {
          ptable[p] := ptable[p].(state := RUNNABLE);
        }
        p := p + 1;
      }
      assert forall i :: 0 <= i < ptable.Length ==> old(ptable[..])[i] == old(ptable[i]);
    }

    /** One pass of the scheduler's loop: a round, then, if there was a process to switch to,
        whatever it and the interrupts do until the CPU comes back with the table `after`. */
    method Iterate(after: seq<Proc>) returns (ran: bool)
      requires Consistent()
      requires Round(State()).proc != NONE ==> WhileRunning(Round(State()), after)
      modifies this, ptable
      ensures Consistent() && Next(old(State()), State())
      ensures ran <==> proc != NONE
      ensures ran ==> ptable[..] == after && flag == (Round(old(State())).flag || after[proc].state != RUNNABLE)
    {
      hide Inv, Round, Between;
      ghost var s := State();
      ran := RunRound();
      if !ran {
        NothingBetween(s);
        NextKeepsInv(s, State());
        return;
      }
      Returned(State(), after);
      forall i | 0 <= i < NPROC {
        ptable[i] := after[i];
      }
      assert ptable[..] == after;
      if ptable[proc].state != RUNNABLE {
        flag := true;
      }
      NextKeepsInv(s, State());
    }
  }

  lemma Returned(r: Sched, after: seq<Proc>)
    requires WhileRunning(r, after)
    ensures |after| == |r.table|
  {}

  lemma NothingBetween(s: Sched)
    requires Inv(s) && Round(s).proc == NONE
    ensures Next(s, Round(s)) && !Round(s).flag
  {}
}
