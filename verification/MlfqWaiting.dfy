/** Bounded waiting: a process that stays RUNNABLE is chosen within a fixed
    number of rounds, whatever the other processes do. */
module MlfqWaiting {
  import opened MlfqSpec

  /** Rounds a waiting process needs to climb from `level` to level 3. */
  function ClimbFrom(level: int): int
  {
    if level == 0 then 500 + 320 + 160 else if level == 1 then 320 + 160 else if level == 2 then 160 else 0
  }

  /** Rounds left until a waiting process arrives at level 3. */
  function Climb(p: Proc): int
    requires ValidProc(p)
  {
    if p.priority == 3 then 0 else ClimbFrom(p.priority) - p.wait[p.priority]
  }

  /** Processes that a scan could still prefer to q at level 3. */
  function Threats(t: seq<Proc>, q: int): set<int>
    requires ValidTable(t) && 0 <= q < NPROC
  {
    set i | 0 <= i < NPROC && i != q && t[i].wait[3] >= t[q].wait[3]
  }

  /** Rounds the current process may keep the CPU before a scan must happen. */
  function SliceLeft(s: Sched): int
    requires Inv(s)
  {
    if s.flag || s.proc == NONE || s.table[s.proc].priority != 3 then 0 else 8 - s.table[s.proc].done[3] % 8
  }

  /** An upper bound on the rounds q can still wait. */
  function Patience(s: Sched, q: int): int
    requires Inv(s) && 0 <= q < NPROC
  {
    if s.table[q].priority < 3 then Climb(s.table[q]) + 8 * NPROC
    else 8 * |Threats(s.table, q)| + SliceLeft(s)
  }

  lemma ThreatsFew(t: seq<Proc>, q: int)
    requires ValidTable(t) && 0 <= q < NPROC
    ensures |Threats(t, q)| < NPROC
  {
    SubsetSize(Threats(t, q), Below(NPROC) - {q});
  }

  function Below(n: nat): (s: set<int>)
    ensures |s| == n && forall i :: i in s <==> 0 <= i < n
  {
    if n == 0 then {} else Below(n - 1) + {n - 1}
  }

  lemma {:induction false} SubsetSize<T>(a: set<T>, b: set<T>)
    requires a <= b
    ensures |a| <= |b|
  {
    if a != {} {
      var x :| x in a;
      SubsetSize(a - {x}, b - {x});
    }
  }

  lemma PatienceRange(s: Sched, q: int)
    requires Inv(s) && 0 <= q < NPROC
    ensures 0 <= Patience(s, q) <= ClimbFrom(s.table[q].priority) + 8 * NPROC
  {
    ThreatsFew(s.table, q);
    assert ValidProc(s.table[q]);
  }

  /** q is RUNNABLE before and after and another process runs in between. */
  ghost predicate Waits(s: Sched, s': Sched, q: int)
    requires Inv(s)
  {
    && 0 <= q < NPROC && Next(s, s')
    && s.table[q].state == RUNNABLE && Round(s).proc != q
  }

  lemma WaiterAges(s: Sched, s': Sched, q: int)
    requires Inv(s) && Waits(s, s', q)
    ensures s'.table[q] == Aged(s.table[q])
    ensures var p := s.table[q]; if p.priority == 3 then Aged(p) == p.(wait := p.wait[3 := p.wait[3] + 1]) else
              (Aged(p).priority == p.priority && Climb(Aged(p)) == Climb(p) - 1)
              || (Aged(p).priority == p.priority + 1 && Climb(Aged(p)) == Climb(p) - 1)
  {
    RoundRunsMaximal(s);
    var r, c, p := Round(s), Round(s).proc, s.table[q];
    assert s.table[c].pid != p.pid by {
      if c < q { assert s.table[c].pid != s.table[q].pid; } else { assert s.table[q].pid != s.table[c].pid; }
    }
    assert r.table[q] == Aged(p);
    assert SlotStep(r.table[q], s'.table[q]);
    AgedValid(p);
  }

  /** At level 3 nobody catches up with a waiting q, and the process that runs falls behind it. */
  lemma ThreatsShrink(s: Sched, s': Sched, q: int)
    requires Inv(s) && Inv(s') && Waits(s, s', q) && s.table[q].priority == 3
    ensures Threats(s'.table, q) <= Threats(s.table, q) - {Round(s).proc}
  {
    forall i | i in Threats(s'.table, q) ensures i in Threats(s.table, q) && i != Round(s).proc {
      ThreatWasThreat(s, s', q, i);
    }
  }

  /** In one round nobody's wait at level 3 grows by more than one, and the wait of the process
      that runs is over. */
  lemma WaitsGrow(s: Sched, s': Sched, i: int)
    requires Inv(s) && Next(s, s') && Round(s).proc != NONE && 0 <= i < NPROC == |s'.table|
    ensures ValidProc(s.table[i]) && |s'.table[i].wait| == 4
    ensures s'.table[i].wait[3] <= if i == Round(s).proc then 0 else s.table[i].wait[3] + 1
  {
    var r := Round(s);
    assert ValidProc(s.table[i]);
    assert SlotStep(r.table[i], s'.table[i]);
    AgedValid(s.table[i]);
  }

  lemma ThreatWasThreat(s: Sched, s': Sched, q: int, i: int)
    requires Inv(s) && Inv(s') && Waits(s, s', q) && s.table[q].priority == 3 && i in Threats(s'.table, q)
    ensures i in Threats(s.table, q) && i != Round(s).proc
  {
    hide Round, Next, Inv;
    WaiterAges(s, s', q);
    InvTable(s);
    InvTable(s');
    WaitRuns(s, s', q);
    WaitsGrow(s, s', i);
  }

  lemma InvTable(s: Sched)
    requires Inv(s)
    ensures ValidTable(s.table)
  {}

  lemma WaitRuns(s: Sched, s': Sched, q: int)
    requires Inv(s) && Waits(s, s', q)
    ensures Next(s, s') && SomeRunnable(s.table) && Round(s).proc != NONE
  {
    assert SomeRunnable(s.table);
    RoundRunsMaximal(s);
  }

  /** A scan that passes over q at level 3 picks one of the threats. */
  lemma ScanPicksThreat(s: Sched, q: int)
    requires Inv(s) && 0 <= q < NPROC && s.table[q].state == RUNNABLE && s.table[q].priority == 3
    requires Rescans(s) && Round(s).proc != q
    ensures Round(s).proc in Threats(s.table, q) && s.table[Round(s).proc].priority == 3
  {
    assert SomeRunnable(s.table);
    ScanChoosesHighest(s.table, s.proc);
    assert ValidProc(s.table[Round(s).proc]);
  }

  lemma SliceLeftAfter(s: Sched, s': Sched)
    requires Inv(s) && Inv(s') && Next(s, s') && SomeRunnable(s.table) && 0 <= Round(s).proc < NPROC
    requires s.table[Round(s).proc].priority == 3
    ensures 0 <= SliceLeft(s') <= 7
    ensures !Rescans(s) ==> SliceLeft(s') < SliceLeft(s)
  {
    RoundRunsMaximal(s);
    var c := Round(s).proc;
    var p := s.table[c];
    assert ValidProc(p);
    assert s'.table[c].done == p.done[3 := p.done[3] + 1];
  }

  /** Each round that q waits uses up some of its patience. */
  lemma WaitingCosts(s: Sched, s': Sched, q: int)
    requires Inv(s) && Inv(s') && Waits(s, s', q)
    ensures Patience(s', q) < Patience(s, q)
  {
    WaiterAges(s, s', q);
    var p, p' := s.table[q], s'.table[q];
    if p.priority == 3 {
      RoundRunsMaximal(s);
      var c := Round(s).proc;
      assert ValidProc(s.table[c]);
      ThreatsShrink(s, s', q);
      SliceLeftAfter(s, s');
      if Rescans(s) {
        ScanPicksThreat(s, q);
        SubsetSize(Threats(s'.table, q), Threats(s.table, q) - {c});
      } else {
        SubsetSize(Threats(s'.table, q), Threats(s.table, q));
      }
    } else if p'.priority == 3 {
      ThreatsFew(s'.table, q);
      assert ValidProc(p);
    }
  }

  /** A stretch of rounds in which q is RUNNABLE throughout and never chosen. */
  ghost predicate WaitingRun(run: seq<Sched>, q: int) {
    && 0 <= q < NPROC && |run| > 0 && Inv(run[0])
    && (forall k :: 0 <= k < |run| - 1 && Inv(run[k]) ==> Waits(run[k], run[k + 1], q))
  }

  lemma {:induction false} WaitingRunInv(run: seq<Sched>, q: int, k: nat)
    requires WaitingRun(run, q) && k < |run|
    ensures Inv(run[k])
  {
    if k > 0 {
      WaitingRunInv(run, q, k - 1);
      NextKeepsInv(run[k - 1], run[k]);
    }
  }

  lemma {:induction false} PatienceRunsDown(run: seq<Sched>, q: int)
    requires WaitingRun(run, q)
    ensures Inv(run[|run| - 1])
    ensures Patience(run[|run| - 1], q) <= Patience(run[0], q) - (|run| - 1)
  {
    hide Inv, Waits, Patience, Climb, Round;
    if |run| > 1 {
      var front := run[..|run| - 1];
      assert WaitingRun(front, q);
      WaitingRunInv(run, q, |run| - 1);
      PatienceRunsDown(front, q);
      WaitingCosts(run[|run| - 2], run[|run| - 1], q);
    }
  }

  /** No process waits more than 500 + 320 + 160 + 8 * NPROC rounds, fewer from a higher level. */
  lemma BoundedWaiting(run: seq<Sched>, q: int)
    requires WaitingRun(run, q)
    ensures |run| - 1 <= ClimbFrom(run[0].table[q].priority) + 8 * NPROC
  {
    PatienceRunsDown(run, q);
    PatienceRange(run[0], q);
    PatienceRange(run[|run| - 1], q);
  }

  lemma {:induction false} ClimbRunsDown(run: seq<Sched>, q: int)
    requires WaitingRun(run, q)
    ensures Inv(run[|run| - 1])
    ensures run[|run| - 1].table[q].priority == 3
         || Climb(run[|run| - 1].table[q]) <= Climb(run[0].table[q]) - (|run| - 1)
  {
    hide Inv, Waits, Patience, Climb, Round;
    if |run| > 1 {
      var front := run[..|run| - 1];
      assert WaitingRun(front, q);
      WaitingRunInv(run, q, |run| - 1);
      ClimbRunsDown(front, q);
      WaiterAges(run[|run| - 2], run[|run| - 1], q);
    }
  }

  /** A waiting process is at level 3 after at most 980 rounds, and once there
      waits at most 8 * NPROC more. */
  lemma ReachesTopLevel(run: seq<Sched>, q: int)
    requires WaitingRun(run, q)
    ensures Inv(run[|run| - 1])
    ensures |run| - 1 >= ClimbFrom(run[0].table[q].priority) ==> run[|run| - 1].table[q].priority == 3
    ensures run[0].table[q].priority == 3 ==> |run| - 1 <= 8 * NPROC
  {
    ClimbRunsDown(run, q);
    BoundedWaiting(run, q);
    assert ValidProc(run[0].table[q]) && ValidProc(run[|run| - 1].table[q]);
  }
}
