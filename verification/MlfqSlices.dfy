/** Time slices, said of the numbers in the process table: what a round costs the process it
    runs and the others, and when a process that keeps the CPU is demoted. */
module MlfqSlices {
  import opened Arith
  import opened MlfqSpec

  /** Rounds a process may run at a level before it is put one lower. */
  function Slice(level: int): int { if level == 3 then 8 else if level == 2 then 16 else if level == 1 then 32 else 50 }

  /** Process c was chosen in this round. */
  ghost predicate Ran(s: Sched, s': Sched, c: int)
    requires Inv(s)
  {
    Next(s, s') && 0 <= c < NPROC && Round(s).proc == c
  }

  /** The process that runs pays one tick at its level and waits no more. It goes one level
      down, and a rescan is due, exactly if it is above level 0 and the ticks it has used
      there have become a multiple of the slice. */
  lemma RunningCosts(s: Sched, s': Sched, c: int)
    requires Inv(s) && Inv(s') && Ran(s, s', c)
    ensures |s.table| == NPROC == |s'.table|
    ensures var (p, q) := (s.table[c], s'.table[c]);
            && 0 <= p.priority <= 3 && |p.done| == 4 == |q.done| && |q.wait| == 4
            && q.done[p.priority] == p.done[p.priority] + 1
            && (forall k :: 0 <= k < 4 && k != p.priority ==> q.done[k] == p.done[k])
            && (forall k :: 0 <= k < 4 ==> q.wait[k] == 0)
            && q.priority == (if p.priority > 0 && q.done[p.priority] % Slice(p.priority) == 0 then p.priority - 1 else p.priority)
            && (q.priority < p.priority ==> s'.flag)
  {
    RoundKeepsTable(s);
    assert ValidProc(s.table[c]);
  }

  /** A process that does not run: if it is runnable its wait at its level grows by one, and at
      500, 320 and 160 it goes one level up and waits from zero; if not, nothing changes. */
  lemma WaitingEffect(s: Sched, i: int)
    requires Inv(s) && Round(s).proc != NONE && 0 <= i < NPROC && s.table[i].pid != s.table[Round(s).proc].pid
    ensures |s.table| == NPROC == |Round(s).table|
    ensures var (p, q) := (s.table[i], Round(s).table[i]);
            && 0 <= p.priority <= 3 && |p.wait| == 4
            && if p.state != RUNNABLE then q == p
               else
                 var w := p.wait[p.priority] + 1;
                 if p.priority < 3 && w == (if p.priority == 0 then 500 else if p.priority == 1 then 320 else 160)
                 then q == p.(priority := p.priority + 1, wait := p.wait[p.priority := 0])
                 else q == p.(wait := p.wait[p.priority := w])
  {
    ScanIndices(s.table);
    assert ValidProc(s.table[i]);
  }

  /** A process whose slice is not over, that came back runnable, and that nobody above it is
      ready to replace, runs again. */
  lemma SliceIsKept(s: Sched)
    requires Inv(s) && !s.flag && s.proc != NONE
    requires forall i :: 0 <= i < NPROC && s.table[i].state == RUNNABLE ==> s.table[i].priority <= s.table[s.proc].priority
    ensures Round(s).proc == s.proc && Round(s).tar == s.tar
  {}

  /** A stretch of rounds all of which ran process c. */
  ghost predicate RunningRun(run: seq<Sched>, c: int) {
    && 0 <= c < NPROC && |run| > 0 && Inv(run[0])
    && (forall k :: 0 <= k < |run| - 1 && Inv(run[k]) ==> Ran(run[k], run[k + 1], c))
  }

  lemma {:induction false} RunningRunInv(run: seq<Sched>, c: int, k: nat)
    requires RunningRun(run, c) && k < |run|
    ensures Inv(run[k]) && |run[k].table| == NPROC && ValidProc(run[k].table[c])
  {
    if k > 0 {
      RunningRunInv(run, c, k - 1);
      assert Ran(run[k - 1], run[k], c);
      NextKeepsInv(run[k - 1], run[k]);
    }
  }

  /** Ticks process p may still run at its level. */
  function Left(p: Proc): (n: int)
    requires ValidProc(p)
    ensures 1 <= n <= Slice(p.priority)
  {
    Slice(p.priority) - p.done[p.priority] % Slice(p.priority)
  }

  /** A process above level 0 that is run round after round stays at its level for what is left
      of its slice of 8, 16 or 32 rounds, and with the last of these, not before, it is one
      level lower and a rescan is due. */
  lemma {:induction false} SliceRunsOut(run: seq<Sched>, c: int)
    requires RunningRun(run, c) && run[0].table[c].priority > 0
    requires ValidProc(run[0].table[c]) && |run| - 1 <= Left(run[0].table[c])
    ensures Inv(run[|run| - 1])
    ensures var (p, q, n) := (run[0].table[c], run[|run| - 1].table[c], |run| - 1);
            if n < Left(p) then q.priority == p.priority && q.done[p.priority] == p.done[p.priority] + n
            else q.priority == p.priority - 1 && run[n].flag
    decreases |run|
  {
    hide Inv, Ran, ValidProc;
    RunningRunInv(run, c, |run| - 1);
    RunningRunInv(run, c, 0);
    if |run| > 1 {
      var front := run[..|run| - 1];
      assert RunningRun(front, c);
      RunningRunInv(run, c, |run| - 2);
      SliceRunsOut(front, c);
      RanAt(run, c, |run| - 2);
      RunningCosts(run[|run| - 2], run[|run| - 1], c);
      ModuloLeft(run[0].table[c], |run| - 1);
    }
  }

  lemma RanAt(run: seq<Sched>, c: int, k: nat)
    requires RunningRun(run, c) && k < |run| - 1 && Inv(run[k])
    ensures Ran(run[k], run[k + 1], c)
  {}

  lemma ModuloLeft(p: Proc, n: nat)
    requires ValidProc(p) && 0 < n <= Left(p)
    ensures (p.done[p.priority] + n) % Slice(p.priority) == 0 <==> n == Left(p)
  {
    NextMultiple(p.done[p.priority], Slice(p.priority), n);
  }

  lemma NextMultiple(d: nat, slice: nat, n: nat)
    requires slice > 0 && 0 < n <= slice - d % slice
    ensures (d + n) % slice == 0 <==> n == slice - d % slice
  {
    var (q, r) := (d / slice, d % slice);
    assert d == q * slice + r && (q + 1) * slice == q * slice + slice;
    if r + n < slice {
      QuotientUnique(d + n, slice, q, r + n);
    } else {
      QuotientUnique(d + n, slice, q + 1, 0);
    }
  }

  /** A process at level 0 stays there, however long it runs. */
  lemma {:induction false} LowestStays(run: seq<Sched>, c: int)
    requires RunningRun(run, c) && run[0].table[c].priority == 0
    ensures Inv(run[|run| - 1]) && run[|run| - 1].table[c].priority == 0
    decreases |run|
  {
    hide Inv, Ran, ValidProc;
    RunningRunInv(run, c, |run| - 1);
    if |run| > 1 {
      var front := run[..|run| - 1];
      assert RunningRun(front, c);
      RunningRunInv(run, c, |run| - 2);
      LowestStays(front, c);
      RanAt(run, c, |run| - 2);
      RunningCosts(run[|run| - 2], run[|run| - 1], c);
    }
  }
}
