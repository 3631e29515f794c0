/** Whom kill marks: kill looks at the pid of every slot, used or not, an unused slot keeps the
    pid of a fork that failed, and allocproc does not clear the mark of the slot it takes. */
module ProcKill {
  import opened Basics
  import opened ProcSpec
  import opened ProcKeeps

  /** What an operation does to the pid and the mark of one slot. */
  datatype Fate = Stays | Marked | Reused | Dropped | Gone

  function FateOf(s: Sys, op: Op, c: nat): Fate {
    match op
    case Kill(pid) => if FirstPid(s.table, pid, 0) == To(c) then Marked else Stays
    case ForkTake(me) => if Free(s, me) && FirstUnused(s.table, 0) == To(c) then Reused else Stays
    case ForkFail(me) =>
      if Forking(s, me) && s.table[me].child == To(c) && s.table[s.table[me].child.slot].parent == Null then Dropped else Stays
    case DoWait(me) =>
      if Free(s, me) && FirstZombie(s.table[me := s.table[me].(chan := NoChan)], me, 0) == To(c) then Gone else Stays
    case _ => Stays
  }

  /** The slot before and after. */
  predicate Follows(f: Fate, p: Proc, q: Proc, nextpid: nat) {
    match f
    case Stays => q.pid == p.pid && q.killed == p.killed && (q.mode == UNUSED <==> p.mode == UNUSED)
    case Marked => q.pid == p.pid && q.killed && (q.mode == UNUSED <==> p.mode == UNUSED)
    case Reused => p.mode == UNUSED && q.mode == EMBRYO && q.pid == nextpid && q.killed == p.killed
    case Dropped => p.mode == EMBRYO && q.mode == UNUSED && q.pid == p.pid && q.killed == p.killed
    case Gone => p.mode == ZOMBIE && q.mode == UNUSED && q.pid == 0 && !q.killed
  }

  lemma SlotAfter(s: Sys, op: Op, c: nat)
    requires Inv(s) && c < NPROC
    ensures |s.table| == NPROC == |Do(s, op).table|
    ensures Follows(FateOf(s, op, c), s.table[c], Do(s, op).table[c], s.nextpid)
  {
    if op.DoWait? {
      WaitSlot(s, op.me, c);
    } else if op.ForkTake? || op.ForkFail? || op.ForkParent? || op.ForkDone? {
      ForkSlot(s, op, c);
    } else {
      PlainSlot(s, op, c);
    }
  }

  lemma WaitSlot(s: Sys, me: nat, c: nat)
    requires Inv(s) && c < NPROC
    ensures |s.table| == NPROC == |Do(s, DoWait(me)).table|
    ensures Follows(FateOf(s, DoWait(me), c), s.table[c], Do(s, DoWait(me)).table[c], s.nextpid)
  {
    hide NoneMissed, OneBuilder, Accounted, Family, FirstZombie, HasKids;
  }

  lemma ForkSlot(s: Sys, op: Op, c: nat)
    requires Inv(s) && c < NPROC && (op.ForkTake? || op.ForkFail? || op.ForkParent? || op.ForkDone?)
    ensures |s.table| == NPROC == |Do(s, op).table|
    ensures Follows(FateOf(s, op, c), s.table[c], Do(s, op).table[c], s.nextpid)
  {
    hide NoneMissed, OneBuilder, Accounted, Family, FirstUnused;
    if !op.ForkTake? && Forking(s, op.me) { BuildingMode(s, op.me); }
  }

  lemma PlainSlot(s: Sys, op: Op, c: nat)
    requires Inv(s) && c < NPROC && !op.DoWait? && !op.ForkTake? && !op.ForkFail? && !op.ForkParent? && !op.ForkDone?
    ensures |s.table| == NPROC == |Do(s, op).table|
    ensures Follows(FateOf(s, op, c), s.table[c], Do(s, op).table[c], s.nextpid)
  {
    hide NoneMissed, OneBuilder, Accounted, Family, Exited, FirstPid;
    if op.Exit? && Free(s, op.me) { ExitedAt(s.table, op.me, s.init, c, 0); }
  }

  /** Pids are given out upwards, and a failed fork stays failed. */
  lemma ListsAfter(s: Sys, op: Op)
    ensures var r := Do(s, op);
            && s.nextpid <= r.nextpid && (forall p :: p in s.failed ==> p in r.failed)
            && (forall c: nat :: c < |s.table| && FateOf(s, op, c) == Dropped ==> s.table[c].pid in r.failed)
  {}

  // ----- which pids unused slots have

  /** An unused slot has pid 0 or the pid of a fork that failed. */
  predicate IdlePids(s: Sys) {
    forall c :: 0 <= c < |s.table| && s.table[c].mode == UNUSED ==> s.table[c].pid == 0 || s.table[c].pid in s.failed
  }

  lemma IdlePidsKeep(s: Sys, op: Op)
    requires Inv(s) && IdlePids(s)
    ensures IdlePids(Do(s, op))
  {
    hide Inv, Do, FateOf;
    ListsAfter(s, op);
    var r := Do(s, op);
    forall c | 0 <= c < |r.table| && r.table[c].mode == UNUSED ensures r.table[c].pid == 0 || r.table[c].pid in r.failed {
      TableSize(s, op);
      SlotAfter(s, op, c);
    }
  }

  lemma TableSize(s: Sys, op: Op)
    requires Inv(s)
    ensures |s.table| == NPROC == |Do(s, op).table|
  {
    SlotAfter(s, op, 0);
  }

  lemma {:induction false} RunIdlePids(run: seq<Op>)
    ensures Inv(After(run)) && IdlePids(After(run))
    decreases run
  {
    hide Inv, Do, IdlePids;
    RunKeeps(run);
    if run == [] {
      BootIdlePids();
    } else {
      RunIdlePids(run[..|run| - 1]);
      IdlePidsKeep(After(run[..|run| - 1]), run[|run| - 1]);
    }
  }

  lemma BootIdlePids()
    ensures IdlePids(Boot())
  {}

  /** The slot that kill finds is in use exactly for the pid of a process in the table, and
      then it is that process's; of the pids it finds, these are all but 0 and those of forks
      that failed. */
  lemma KillHits(s: Sys, pid: nat)
    requires Inv(s) && IdlePids(s)
    ensures InTable(s.table, pid) ==> FirstPid(s.table, pid, 0).To?
    ensures var l := FirstPid(s.table, pid, 0);
            l.To? ==> && (s.table[l.slot].mode != UNUSED <==> InTable(s.table, pid))
                      && (InTable(s.table, pid) <==> pid != 0 && pid !in s.failed)
                      && (InTable(s.table, pid) ==> forall c: nat :: Holds(s.table, pid, c) ==> c == l.slot)
  {
    hide Shaped;
    var l := FirstPid(s.table, pid, 0);
    if l.To? && s.table[l.slot].mode != UNUSED {
      assert Holds(s.table, pid, l.slot);
    }
  }

  // ----- when the mark of an unused slot arises

  /** No unused slot is marked, so that whoever is given it starts unmarked. */
  predicate Clean(s: Sys) { forall c :: 0 <= c < |s.table| && s.table[c].mode == UNUSED ==> !s.table[c].killed }

  /** kill of pid 0 or of the pid of a failed fork, if it finds one; and the failure of a fork
      whose child is marked already. */
  predicate Soils(s: Sys, op: Op) {
    match op
    case Kill(pid) => FirstPid(s.table, pid, 0).To? && (pid == 0 || pid in s.failed)
    case ForkFail(me) =>
      && Forking(s, me) && s.table[s.table[me].child.slot].parent == Null && s.table[s.table[me].child.slot].killed
    case _ => false
  }

  /** These, and no others, leave a mark on an unused slot. */
  lemma CleanExactly(s: Sys, op: Op)
    requires Inv(s) && IdlePids(s) && Clean(s)
    ensures Clean(Do(s, op)) <==> !Soils(s, op)
  {
    hide Inv, Do;
    TableSize(s, op);
    var r := Do(s, op);
    if Soils(s, op) {
      Soiled(s, op);
    } else {
      forall c | 0 <= c < NPROC && r.table[c].mode == UNUSED ensures !r.table[c].killed {
        SlotAfter(s, op, c);
        if op.Kill? { KillHits(s, op.pid); }
      }
    }
  }

  lemma Soiled(s: Sys, op: Op)
    requires Inv(s) && IdlePids(s) && Soils(s, op)
    ensures !Clean(Do(s, op))
  {
    hide Inv, Do;
    TableSize(s, op);
    var c := if op.Kill? then FirstPid(s.table, op.pid, 0).slot else s.table[op.me].child.slot;
    SlotAfter(s, op, c);
    if op.Kill? { KillHits(s, op.pid); }
  }

  // ----- waking

  /** kill of a process in the table marks it, and wakes it if it sleeps, on whatever channel;
      nothing else of it changes, and nothing of any other. */
  lemma KillWakes(s: Sys, pid: nat, c: nat)
    requires Inv(s) && IdlePids(s) && Holds(s.table, pid, c)
    ensures var (t, u) := (s.table, Do(s, Kill(pid)).table);
            && |u| == |t| && u[c].killed && u[c].mode == (if t[c].mode == SLEEPING then RUNNABLE else t[c].mode)
            && u[c] == t[c].(killed := true, mode := u[c].mode)
            && forall d :: 0 <= d < |t| && d != c ==> u[d] == t[d]
  {
    hide Inv;
    KillHits(s, pid);
  }

  /** wakeup makes exactly the processes asleep on its channel runnable, and changes nothing
      else: afterwards nobody sleeps there. */
  lemma WakeUpWakes(s: Sys, id: int)
    ensures var (t, u) := (s.table, Do(s, WakeUp(id)).table);
            && |u| == |t|
            && (forall c :: 0 <= c < |t| ==>
                  u[c] == if t[c].mode == SLEEPING && t[c].chan == Other(id) then t[c].(mode := RUNNABLE) else t[c])
            && (forall c :: 0 <= c < |u| ==> !(u[c].mode == SLEEPING && u[c].chan == Other(id)))
  {
    var u := Do(s, WakeUp(id)).table;
    assert |u| == |s.table|;
  }

  /** Giving up the processor and taking it again, by yielding or by sleeping until a wakeup on
      the same channel; nobody else's entry changes. */
  lemma SwitchedBack(s: Sys, me: nat, id: int)
    requires me < |s.table| && s.table[me].mode == RUNNING
    ensures Do(s, Yield(me)) == s.(table := s.table[me := s.table[me].(mode := RUNNABLE)])
    ensures Do(Do(s, Yield(me)), Schedule(me)) == s
    ensures Free(s, me) ==>
              && Do(s, SleepOn(me, id)) == s.(table := s.table[me := s.table[me].(mode := SLEEPING, chan := Other(id))])
              && var r := Do(Do(Do(s, SleepOn(me, id)), WakeUp(id)), Schedule(me));
                 |r.table| == |s.table| && r.table[me] == s.table[me].(chan := Other(id))
  {
    assert Do(Do(s, Yield(me)), Schedule(me)).table == s.table;
  }

  // ----- over runs: who is marked

  /** The pids kill was called with. */
  ghost function Kills(run: seq<Op>): set<nat>
    decreases run
  {
    if run == [] then {} else
      Kills(run[..|run| - 1]) + if run[|run| - 1].Kill? then {run[|run| - 1].pid} else {}
  }

  /** Those of processes in the table at the time. */
  ghost function Struck(run: seq<Op>): (r: set<nat>)
    ensures r <= Kills(run)
    decreases run
  {
    if run == [] then {} else
      var (front, op) := (run[..|run| - 1], run[|run| - 1]);
      Struck(front) + if op.Kill? && InTable(After(front).table, op.pid) then {op.pid} else {}
  }

  /** kill was called with pid 0, or the pid of a fork that has failed by now. */
  ghost predicate Stray(kills: set<nat>, failed: seq<nat>) { 0 in kills || exists p :: p in failed && p in kills }

  /** A slot's mark comes from a kill of its process or a stray one; a process that was struck
      is marked as long as it is in the table. */
  ghost predicate Blamed(s: Sys, kills: set<nat>, struck: set<nat>, c: nat)
    requires c < |s.table|
  {
    && (s.table[c].killed ==> s.table[c].pid in struck || Stray(kills, s.failed))
    && (s.table[c].mode != UNUSED && s.table[c].pid in struck ==> s.table[c].killed)
  }

  lemma StrayStays(kills: set<nat>, failed: seq<nat>, more: set<nat>, longer: seq<nat>)
    requires Stray(kills, failed) && kills <= more && forall p :: p in failed ==> p in longer
    ensures Stray(more, longer)
  {}

  /** One operation: with the pid of a kill added to the sets. */
  lemma BlamedKeeps(s: Sys, op: Op, kills: set<nat>, struck: set<nat>, c: nat)
    requires Inv(s) && IdlePids(s) && c < NPROC && |s.table| == NPROC && Blamed(s, kills, struck, c)
    requires struck <= kills && forall p :: p in struck ==> p < s.nextpid
    ensures var more := kills + if op.Kill? then {op.pid} else {};
            var hit := struck + if op.Kill? && InTable(s.table, op.pid) then {op.pid} else {};
            |Do(s, op).table| == NPROC && Blamed(Do(s, op), more, hit, c)
  {
    hide Inv, Do, FateOf, Stray;
    SlotAfter(s, op, c);
    ListsAfter(s, op);
    var more := kills + if op.Kill? then {op.pid} else {};
    if Stray(kills, s.failed) { StrayStays(kills, s.failed, more, Do(s, op).failed); }
    match FateOf(s, op, c)
    case Stays => OtherStruck(s, op, c);
    case Marked => MarkBlamed(s, op, c, more, Do(s, op).failed);
    case Reused => ReusedStray(s, op, c, struck, more, Do(s, op).failed);
    case Dropped =>
    case Gone =>
  }

  /** kill misses no process in the table. */
  lemma OtherStruck(s: Sys, op: Op, c: nat)
    requires Inv(s) && IdlePids(s) && c < NPROC == |s.table| && FateOf(s, op, c) == Stays
    ensures op.Kill? && s.table[c].mode != UNUSED ==> s.table[c].pid != op.pid
  {
    hide Inv;
    if op.Kill? && s.table[c].mode != UNUSED && s.table[c].pid == op.pid {
      assert Holds(s.table, op.pid, c);
      KillHits(s, op.pid);
    }
  }

  lemma MarkBlamed(s: Sys, op: Op, c: nat, more: set<nat>, failed: seq<nat>)
    requires Inv(s) && IdlePids(s) && c < NPROC == |s.table| && FateOf(s, op, c) == Marked
    requires (op.Kill? ==> op.pid in more) && forall p :: p in s.failed ==> p in failed
    ensures op.Kill? && s.table[c].pid == op.pid && (InTable(s.table, op.pid) || Stray(more, failed))
  {
    hide Inv;
    KillHits(s, op.pid);
  }

  /** What an unused slot was struck for, a failed fork was struck for. */
  lemma ReusedStray(s: Sys, op: Op, c: nat, struck: set<nat>, more: set<nat>, failed: seq<nat>)
    requires IdlePids(s) && c < |s.table| && FateOf(s, op, c) == Reused && struck <= more
    requires forall p :: p in s.failed ==> p in failed
    ensures !op.Kill? && (s.table[c].pid in struck ==> Stray(more, failed))
  {}

  lemma {:induction false} RunBlamed(run: seq<Op>, c: nat)
    requires c < NPROC
    ensures var s := After(run); |s.table| == NPROC && Blamed(s, Kills(run), Struck(run), c)
    ensures forall p :: p in Struck(run) ==> p < After(run).nextpid
    decreases run
  {
    hide Inv, Do, IdlePids, Blamed;
    if run == [] {
      BootBlamed(c);
    } else {
      var (front, op) := (run[..|run| - 1], run[|run| - 1]);
      RunIdlePids(front);
      RunBlamed(front, c);
      BlamedKeeps(After(front), op, Kills(front), Struck(front), c);
      ListsAfter(After(front), op);
      if op.Kill? && InTable(After(front).table, op.pid) { InTableBelow(After(front), op.pid); }
    }
  }

  lemma BootBlamed(c: nat)
    requires c < NPROC
    ensures Blamed(Boot(), {}, {}, c)
  {}

  lemma InTableBelow(s: Sys, pid: nat)
    requires Inv(s) && InTable(s.table, pid)
    ensures pid < s.nextpid
  {}

  /** In every run, a process is marked only if kill was called with its pid while it was in
      the table, or with pid 0, or with the pid of a fork that failed, before or after. In
      runs without the latter it is marked if and only if kill was called with its pid. */
  lemma KilledExactly(run: seq<Op>, c: nat)
    requires var s := After(run); c < |s.table| && s.table[c].mode != UNUSED
    ensures var (s, p) := (After(run), After(run).table[c]);
            && (p.pid in Struck(run) ==> p.killed)
            && (p.killed ==> p.pid in Struck(run) || Stray(Kills(run), s.failed))
            && (!Stray(Kills(run), s.failed) ==> (p.killed <==> p.pid in Struck(run)))
  {
    hide After, Stray, Inv;
    RunIdlePids(run);
    InvSize(After(run));
    RunBlamed(run, c);
  }

  lemma InvSize(s: Sys)
    requires Inv(s)
    ensures |s.table| == NPROC
  {}

  // ----- the harm is real

  /** Whoever is given a marked slot starts marked, with a pid of its own. */
  lemma HeirIsMarked(s: Sys, me: nat, c: nat)
    requires Inv(s) && Free(s, me) && FirstUnused(s.table, 0) == To(c) && s.table[c].killed
    ensures var t := Do(Do(Do(s, ForkTake(me)), ForkParent(me)), ForkDone(me)).table;
            c < |t| && t[c].mode == RUNNABLE && t[c].pid == s.nextpid && t[c].killed && t[c].parent == To(me)
  {}

  lemma AfterMore(run: seq<Op>, op: Op)
    ensures After(run + [op]) == Do(After(run), op)
    ensures Kills(run + [op]) == Kills(run) + if op.Kill? then {op.pid} else {}
  {
    assert (run + [op])[..|run + [op]| - 1] == run;
  }

  /** A fork by process me, from After(run). */
  function Forked(run: seq<Op>, me: nat): seq<Op> { run + [ForkTake(me)] + [ForkParent(me)] + [ForkDone(me)] }

  lemma AfterForked(run: seq<Op>, me: nat)
    ensures After(Forked(run, me)) == Do(Do(Do(After(run), ForkTake(me)), ForkParent(me)), ForkDone(me))
    ensures Kills(Forked(run, me)) == Kills(run)
  {
    hide After, Do, Kills;
    AfterMore(run, ForkTake(me));
    AfterMore(run + [ForkTake(me)], ForkParent(me));
    AfterMore(run + [ForkTake(me)] + [ForkParent(me)], ForkDone(me));
  }

  /** From boot, kill(0) and a fork: the child has pid 2 and is marked, and nobody killed 2. */
  lemma KillZeroStrikesTheNextChild()
    ensures var run := Forked([] + [Schedule(0)] + [Kill(0)], 0);
            var t := After(run).table;
            |t| == NPROC && t[1].mode == RUNNABLE && t[1].pid == 2 && t[1].killed && Kills(run) == {0}
  {
    hide After, Do, Kills;
    var run := [] + [Schedule(0)] + [Kill(0)];
    AfterMore([], Schedule(0));
    AfterMore([] + [Schedule(0)], Kill(0));
    AfterForked(run, 0);
    BootThenKilled();
    RunIdlePids(run);
    RunIdlePids(Forked(run, 0));
    InvSize(After(Forked(run, 0)));
    HeirIsMarked(After(run), 0, 1);
  }

  lemma BootThenKilled()
    ensures After([]) == Boot() && Kills([]) == {}
    ensures var s := Do(Do(Boot(), Schedule(0)), Kill(0));
            Free(s, 0) && FirstUnused(s.table, 0) == To(1) && s.table[1].killed && s.nextpid == 2
  {
    var t := Do(Boot(), Schedule(0)).table;
    assert t[0].pid == 1 && t[1].pid == 0 && FirstPid(t, 0, 1) == To(1);
    var u := Killed(t, 0);
    assert FirstUnused(u, 1) == To(1);
  }

  /** From boot, kill(2) while process 2 is being built, the failure of that fork, and another
      fork: the child has pid 3 and is marked, and nobody killed 3. */
  lemma FailedForkPassesItsMarkOn()
    ensures var run := Forked([] + [Schedule(0)] + [ForkTake(0)] + [Kill(2)] + [ForkFail(0)], 0);
            var t := After(run).table;
            |t| == NPROC && t[1].mode == RUNNABLE && t[1].pid == 3 && t[1].killed && Kills(run) == {2}
  {
    hide After, Do, Kills;
    var run := [] + [Schedule(0)] + [ForkTake(0)] + [Kill(2)] + [ForkFail(0)];
    AfterMore([], Schedule(0));
    AfterMore([] + [Schedule(0)], ForkTake(0));
    AfterMore([] + [Schedule(0)] + [ForkTake(0)], Kill(2));
    AfterMore([] + [Schedule(0)] + [ForkTake(0)] + [Kill(2)], ForkFail(0));
    AfterForked(run, 0);
    BootThenKilled();
    BootThenFailed();
    RunIdlePids(run);
    RunIdlePids(Forked(run, 0));
    InvSize(After(Forked(run, 0)));
    HeirIsMarked(After(run), 0, 1);
  }

  lemma BootThenFailed()
    ensures var s := Do(Do(Do(Do(Boot(), Schedule(0)), ForkTake(0)), Kill(2)), ForkFail(0));
            Free(s, 0) && FirstUnused(s.table, 0) == To(1) && s.table[1].killed && s.nextpid == 3
  {
    var s1 := Do(Boot(), Schedule(0));
    assert FirstUnused(s1.table, 1) == To(1);
    var s2 := Do(s1, ForkTake(0));
    assert s2.table[0].pid == 1 && s2.table[1].pid == 2 && FirstPid(s2.table, 2, 1) == To(1);
    var s3 := Do(s2, Kill(2));
    var s4 := Do(s3, ForkFail(0));
    assert FirstUnused(s4.table, 1) == To(1);
  }
}
