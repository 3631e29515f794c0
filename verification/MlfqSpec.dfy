/** One CPU's view of the multi-level feedback scheduler, as values: the process
    table, the process last chosen, and the `flag` and `tar` variables the
    scheduler carries from round to round. */
module MlfqSpec {

  const NPROC := 64
  const NONE := -1
  const TICKS: seq<int> := [50, 32, 16, 8]
  const ZEROS: seq<int> := [0, 0, 0, 0]

  datatype ProcState = UNUSED | EMBRYO | SLEEPING | RUNNABLE | RUNNING | ZOMBIE

  datatype Proc = Proc(state: ProcState, pid: int, chan: int, priority: int, wait: seq<int>, done: seq<int>)

  /** `proc` and the entries of `tar` are table indices, or NONE for a null pointer. */
  datatype Sched = Sched(table: seq<Proc>, proc: int, flag: bool, tar: seq<int>)

  // ----- invariants

  predicate ValidProc(p: Proc) {
    && 0 <= p.priority <= 3
    && |p.wait| == 4 && |p.done| == 4
    && (forall k :: 0 <= k < 4 ==> p.wait[k] >= 0 && p.done[k] >= 0)
    && (forall k :: 0 <= k < 4 && k != p.priority ==> p.wait[k] == 0)
    && (p.priority < 3 ==> p.wait[p.priority] < 10 * TICKS[p.priority])
    && (forall k :: p.priority < k < 4 ==> p.done[k] % TICKS[k] == 0)
  }

  predicate ValidTable(t: seq<Proc>) {
    |t| == NPROC && forall i :: 0 <= i < NPROC ==> ValidProc(t[i])
  }

  predicate DistinctPids(t: seq<Proc>) {
    forall i, j :: 0 <= i < j < |t| && t[i].state != UNUSED && t[j].state != UNUSED ==> t[i].pid != t[j].pid
  }

  predicate IndexOrNone(i: int) { NONE <= i < NPROC }

  /** Holds whenever the scheduler is about to start a round. */
  predicate Inv(s: Sched) {
    && ValidTable(s.table) && DistinctPids(s.table)
    && IndexOrNone(s.proc) && |s.tar| == 4 && (forall k :: 0 <= k < 4 ==> IndexOrNone(s.tar[k]))
    && (!s.flag && s.proc != NONE ==> Choose(s.tar, s.proc) == s.proc && s.table[s.proc].state == RUNNABLE)
  }

  predicate SomeRunnable(t: seq<Proc>) {
    exists i :: 0 <= i < |t| && t[i].state == RUNNABLE
  }

  // ----- one round

  predicate AnyAbove(t: seq<Proc>, priority: int) {
    exists i :: 0 <= i < |t| && t[i].state == RUNNABLE && t[i].priority > priority
  }

  /** Among the first n entries, the RUNNABLE process of this level found by the scan. */
  function Best(t: seq<Proc>, level: int, n: nat): (b: int)
    requires n <= |t| && ValidTable(t) && 0 <= level < 4
    ensures NONE <= b < n
  {
    if n == 0 then NONE else
      var b, p := Best(t, level, n - 1), t[n - 1];
      if p.state == RUNNABLE && p.priority == level && (b == NONE || p.wait[level] > t[b].wait[level]) then n - 1 else b
  }

  function Scan(t: seq<Proc>, n: nat): (tar: seq<int>)
    requires n <= |t| && ValidTable(t)
    ensures |tar| == 4
  {
    seq(4, level requires 0 <= level < 4 => Best(t, level, n))
  }

  /** The highest level with a target; the previous process when there is none. */
  function Choose(tar: seq<int>, proc: int): int
    requires |tar| == 4
  {
    if tar[3] != NONE then tar[3] else if tar[2] != NONE then tar[2]
    else if tar[1] != NONE then tar[1] else if tar[0] != NONE then tar[0] else proc
  }

  /** A process other than the chosen one after a round of waiting. */
  function Aged(p: Proc): Proc
    requires ValidProc(p)
  {
    var q := if p.state == RUNNABLE then p.(wait := p.wait[p.priority := p.wait[p.priority] + 1]) else p;
    if q.wait[q.priority] == 10 * TICKS[q.priority] && q.priority != 3
    then q.(wait := q.wait[q.priority := 0], priority := q.priority + 1)
    else q
  }

  function AgeUpTo(t: seq<Proc>, pid: int, n: nat): (r: seq<Proc>)
    requires n <= |t| && ValidTable(t)
    ensures |r| == |t|
  {
    seq(|t|, i requires 0 <= i < |t| => if i < n && t[i].pid != pid then Aged(t[i]) else t[i])
  }

  predicate SliceEnds(p: Proc)
    requires ValidProc(p)
  {
    (p.done[p.priority] + 1) % TICKS[p.priority] == 0 && p.priority != 0
  }

  /** The chosen process after being charged one tick. */
  function Charged(p: Proc): Proc
    requires ValidProc(p)
  {
    p.(state := RUNNING, wait := ZEROS, done := p.done[p.priority := p.done[p.priority] + 1],
       priority := if SliceEnds(p) then p.priority - 1 else p.priority)
  }

  predicate Rescans(s: Sched)
    requires Inv(s)
  {
    s.flag || s.proc == NONE || AnyAbove(s.table, s.table[s.proc].priority)
  }

  /** A round up to the switch to the chosen process; an idle round that has none changes only `tar`. */
  function Round(s: Sched): Sched
    requires Inv(s)
  {
    var tar := if Rescans(s) then Scan(s.table, NPROC) else s.tar;
    var c := Choose(tar, s.proc);
    if c == NONE then Sched(s.table, NONE, false, tar) else
      assert IndexOrNone(c) by { ScanIndices(s.table); }
      var aged := AgeUpTo(s.table, s.table[c].pid, NPROC);
      Sched(aged[c := Charged(s.table[c])], c, SliceEnds(s.table[c]), tar)
  }

  lemma ScanIndices(t: seq<Proc>)
    requires ValidTable(t)
    ensures forall k :: 0 <= k < 4 ==> IndexOrNone(Scan(t, NPROC)[k])
  {}

  // ----- what the scan and the choice mean

  /** The scan finds a process of longest wait at its level, the earliest in the
      table among equals, and NONE only if the level has no RUNNABLE process. */
  lemma {:induction false} BestIsLongestWait(t: seq<Proc>, level: int, n: nat)
    requires n <= |t| && ValidTable(t) && 0 <= level < 4
    ensures var b := Best(t, level, n);
            if b == NONE then forall i :: 0 <= i < n ==> !(t[i].state == RUNNABLE && t[i].priority == level)
            else
              && t[b].state == RUNNABLE && t[b].priority == level
              && forall i :: 0 <= i < n && t[i].state == RUNNABLE && t[i].priority == level
                             ==> t[i].wait[level] < t[b].wait[level] || (t[i].wait[level] == t[b].wait[level] && b <= i)
  {
    if n > 0 {
      BestIsLongestWait(t, level, n - 1);
    }
  }

  lemma ScanChoosesHighest(t: seq<Proc>, proc: int)
    requires ValidTable(t) && SomeRunnable(t)
    ensures var c := Choose(Scan(t, NPROC), proc);
            && 0 <= c < NPROC && t[c].state == RUNNABLE
            && (forall i :: 0 <= i < NPROC && t[i].state == RUNNABLE ==> t[i].priority <= t[c].priority)
            && (forall i :: 0 <= i < NPROC && t[i].state == RUNNABLE && t[i].priority == t[c].priority
                            ==> t[i].wait[t[i].priority] <= t[c].wait[t[c].priority])
  {
    hide Best;
    BestIsLongestWait(t, 0, NPROC);
    BestIsLongestWait(t, 1, NPROC);
    BestIsLongestWait(t, 2, NPROC);
    BestIsLongestWait(t, 3, NPROC);
    var i :| 0 <= i < |t| && t[i].state == RUNNABLE;
    assert ValidProc(t[i]);
  }

  /** With a RUNNABLE process in the table, the round runs one of maximal priority. */
  lemma RoundRunsMaximal(s: Sched)
    requires Inv(s) && SomeRunnable(s.table)
    ensures var c := Round(s).proc;
            && 0 <= c < NPROC && s.table[c].state == RUNNABLE
            && forall i :: 0 <= i < NPROC && s.table[i].state == RUNNABLE ==> s.table[i].priority <= s.table[c].priority
  {
    if Rescans(s) {
      ScanChoosesHighest(s.table, s.proc);
    }
  }

  /** The process a round runs was RUNNABLE exactly when some process was: with
      none, the scheduler runs the previous process again, whatever its state. */
  lemma RoundRunsRunnableIff(s: Sched)
    requires Inv(s) && Round(s).proc != NONE
    ensures s.table[Round(s).proc].state == RUNNABLE <==> SomeRunnable(s.table)
  {
    ScanIndices(s.table);
    if SomeRunnable(s.table) {
      RoundRunsMaximal(s);
    }
  }

  /** With nothing RUNNABLE, the round rescans, finds no target, and stays with the process it had. */
  lemma IdleRound(s: Sched)
    requires Inv(s) && !SomeRunnable(s.table)
    ensures Rescans(s) && Round(s).proc == s.proc && Round(s).tar == [NONE, NONE, NONE, NONE]
  {
    ScanOfNone(s.table);
    if s.proc != NONE { assert s.table[s.proc].state != RUNNABLE; }
  }

  /** A table whose only process went to sleep in its last round: the next round
      marks the sleeper RUNNING. */
  lemma IdleRoundRunsSleeper()
    ensures var sleeper := Proc(SLEEPING, 1, 7, 3, ZEROS, [0, 0, 0, 1]);
            var empty := Proc(UNUSED, 0, 0, 0, ZEROS, ZEROS);
            var s := Sched([sleeper] + seq(NPROC - 1, _ => empty), 0, true, [NONE, NONE, NONE, 0]);
            Inv(s) && Round(s).proc == 0 && s.table[0].state == SLEEPING && Round(s).table[0].state == RUNNING
  {
    hide Best, Scan, Aged, SliceEnds;
    var sleeper := Proc(SLEEPING, 1, 7, 3, ZEROS, [0, 0, 0, 1]);
    var empty := Proc(UNUSED, 0, 0, 0, ZEROS, ZEROS);
    var t := [sleeper] + seq(NPROC - 1, _ => empty);
    assert t[0] == sleeper && forall i :: 0 < i < NPROC ==> t[i] == empty;
    assert ValidTable(t) by { assert ValidProc(sleeper) && ValidProc(empty); }
    var s := Sched(t, 0, true, [NONE, NONE, NONE, 0]);
    assert Inv(s);
    IdleRound(s);
    ChargedRuns(s);
  }

  lemma ChargedRuns(s: Sched)
    requires Inv(s) && Round(s).proc != NONE && 0 <= Round(s).proc < NPROC
    ensures Round(s).table[Round(s).proc].state == RUNNING
  {
    hide Best;
  }

  lemma ScanOfNone(t: seq<Proc>)
    requires ValidTable(t) && !SomeRunnable(t)
    ensures Scan(t, NPROC) == [NONE, NONE, NONE, NONE]
  {
    BestIsLongestWait(t, 0, NPROC);
    BestIsLongestWait(t, 1, NPROC);
    BestIsLongestWait(t, 2, NPROC);
    BestIsLongestWait(t, 3, NPROC);
  }

  // ----- between two rounds

  /** What may happen to a table slot while the chosen process runs: a RUNNABLE
      process stays as it is, since only the scheduler takes it off the CPU's
      queue; any other slot keeps its accounting or is allocated afresh. */
  predicate SlotStep(p: Proc, q: Proc) {
    if p.state == RUNNABLE then q == p
    else
      || (q.priority == p.priority && q.wait == p.wait && q.done == p.done)
      || (q.priority == 3 && q.wait == ZEROS && q.done == ZEROS)
  }

  predicate Between(t: seq<Proc>, u: seq<Proc>) {
    |t| == |u| && DistinctPids(u) && forall i :: 0 <= i < |t| ==> SlotStep(t[i], u[i])
  }

  /** While the process chosen in round r runs, it keeps its accounting; u is the table when
      the CPU comes back. */
  predicate WhileRunning(r: Sched, u: seq<Proc>) {
    && Between(r.table, u) && 0 <= r.proc < |u|
    && var (p, q) := (r.table[r.proc], u[r.proc]);
       q.priority == p.priority && q.wait == p.wait && q.done == p.done
  }

  /** From one round to the next. If the process that ran did not come back RUNNABLE, or its
      slice ended, `flag` is set; with no process to run, the loop starts over. */
  predicate Next(s: Sched, s': Sched)
    requires Inv(s)
  {
    var r := Round(s);
    && s'.proc == r.proc && s'.tar == r.tar
    && if r.proc == NONE then Between(r.table, s'.table) && !s'.flag
       else WhileRunning(r, s'.table) && (r.flag || s'.table[r.proc].state != RUNNABLE ==> s'.flag)
  }

  /** The process that ran may yield, sleep or exit. */
  lemma RunsGoOn(s: Sched, q: Proc)
    requires Inv(s) && Round(s).proc != NONE && |Round(s).table| == NPROC && 0 <= Round(s).proc < NPROC
    requires s.table[Round(s).proc].state != UNUSED && q == Round(s).table[Round(s).proc].(state := q.state, chan := q.chan)
    ensures var r := Round(s);
            Next(s, r.(table := r.table[r.proc := q], flag := r.flag || q.state != RUNNABLE))
  {
    hide Round, Inv, ValidTable;
    ChargedRuns(s);
    RoundPids(s);
    var r := Round(s);
    assert Between(r.table, r.table[r.proc := q]);
  }

  lemma RoundPids(s: Sched)
    requires Inv(s) && Round(s).proc != NONE && 0 <= Round(s).proc < NPROC && s.table[Round(s).proc].state != UNUSED
    ensures DistinctPids(Round(s).table)
  {
    hide Best, SliceEnds;
    ScanIndices(s.table);
    var (r, t) := (Round(s).table, s.table);
    forall i | 0 <= i < NPROC ensures r[i].pid == t[i].pid && (r[i].state == UNUSED <==> t[i].state == UNUSED) {
      AgedValid(t[i]);
    }
  }

  /** Meanwhile whoever sleeps may be woken. */
  lemma SleepersMayWake(r: Sched, u: seq<Proc>, i: nat)
    requires WhileRunning(r, u) && i < |u| && i != r.proc && u[i].state == SLEEPING
    ensures WhileRunning(r, u[i := u[i].(state := RUNNABLE)])
  {
    assert SlotStep(r.table[i], u[i]);
  }

  lemma AgedValid(p: Proc)
    requires ValidProc(p)
    ensures ValidProc(Aged(p))
    ensures Aged(p).state == p.state && Aged(p).pid == p.pid && Aged(p).done == p.done
  {}

  lemma ChargedValid(p: Proc)
    requires ValidProc(p)
    ensures ValidProc(Charged(p))
  {
    var q := Charged(p);
    forall k | q.priority < k < 4 ensures q.done[k] % TICKS[k] == 0 {}
  }

  lemma BetweenKeepsValid(t: seq<Proc>, u: seq<Proc>)
    requires ValidTable(t) && Between(t, u)
    ensures ValidTable(u)
  {
    forall i | 0 <= i < NPROC ensures ValidProc(u[i]) {
      assert ValidProc(t[i]) && SlotStep(t[i], u[i]);
    }
  }

  lemma RoundKeepsTable(s: Sched)
    requires Inv(s) && Round(s).proc != NONE
    ensures ValidTable(Round(s).table)
  {
    var r, c := Round(s), Round(s).proc;
    ScanIndices(s.table);
    ChargedValid(s.table[c]);
    forall i | 0 <= i < NPROC ensures ValidProc(r.table[i]) {
      AgedValid(s.table[i]);
    }
  }

  /** Every round, idle or not, and everything that happens until the next one, keeps the
      scheduler's invariant. */
  lemma NextKeepsInv(s: Sched, s': Sched)
    requires Inv(s) && Next(s, s')
    ensures Inv(s')
  {
    ScanIndices(s.table);
    if Round(s).proc != NONE {
      RoundKeepsTable(s);
    }
    BetweenKeepsValid(Round(s).table, s'.table);
    if SomeRunnable(s.table) {
      RoundRunsMaximal(s);
    } else {
      IdleRound(s);
    }
  }
}
