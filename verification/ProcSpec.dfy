/** Processes being born, exiting, and being waited for.

    The states here are those in which the table lock is free: each operation is one
    stretch of code under the lock, or one of fork's stores outside it, and operations of
    different processes interleave in any order on any number of processors. */
module ProcSpec {
  import opened Basics

  const NPROC := 64

  datatype Mode = UNUSED | EMBRYO | SLEEPING | RUNNABLE | RUNNING | ZOMBIE

  /** A slot of the table, or the null pointer. */
  datatype Link = Null | To(slot: nat)

  /** What a process sleeps on: in wait, its own table entry. */
  datatype Chan = NoChan | OfProc(slot: nat) | Other(id: int)

  /** `child` is the slot a process has taken for the child it is still building in fork. */
  datatype Proc = Proc(mode: Mode, pid: nat, parent: Link, chan: Chan, killed: bool, child: Link)

  datatype Sys = Sys(table: seq<Proc>, init: nat, nextpid: nat, reaped: seq<nat>, failed: seq<nat>)

  predicate Live(p: Proc) { p.mode == SLEEPING || p.mode == RUNNABLE || p.mode == RUNNING }

  // ----- wakeup1, exit and wait on the table

  function WakeOne(p: Proc, chan: Chan): Proc {
    if p.mode == SLEEPING && p.chan == chan then p.(mode := RUNNABLE) else p
  }

  function Woken(t: seq<Proc>, chan: Chan): (r: seq<Proc>)
    ensures |r| == |t|
  {
    seq(|t|, i requires 0 <= i < |t| => WakeOne(t[i], chan))
  }

  /** The channel wait sleeps on, as exit names it through a parent pointer. */
  function ChanOf(l: Link): Chan { if l.Null? then NoChan else OfProc(l.slot) }

  function Adopt(p: Proc, me: nat, init: nat): Proc { if p.parent == To(me) then p.(parent := To(init)) else p }

  function Adopted(t: seq<Proc>, me: nat, init: nat): (r: seq<Proc>)
    ensures |r| == |t|
  {
    seq(|t|, i requires 0 <= i < |t| => Adopt(t[i], me, init))
  }

  predicate ZombieChild(t: seq<Proc>, me: nat, c: nat) { c < |t| && t[c].parent == To(me) && t[c].mode == ZOMBIE }

  /** The first zombie child from slot k on. */
  function FirstZombie(t: seq<Proc>, me: nat, k: nat): (r: Link)
    requires k <= |t|
    ensures r.To? ==> k <= r.slot < |t| && ZombieChild(t, me, r.slot)
    ensures r.Null? ==> forall c :: k <= c < |t| ==> !ZombieChild(t, me, c)
    decreases |t| - k
  {
    if k == |t| then Null else if ZombieChild(t, me, k) then To(k) else FirstZombie(t, me, k + 1)
  }

  /** The children passed to init, which is woken if one of them is a zombie. */
  function Abandoned(t: seq<Proc>, me: nat, init: nat): (r: seq<Proc>)
    ensures |r| == |t|
  {
    if FirstZombie(t, me, 0).To? then Woken(Adopted(t, me, init), OfProc(init)) else Adopted(t, me, init)
  }

  /** exit under the lock: wake the parent, give the children to init, become a zombie. */
  function Exited(t: seq<Proc>, me: nat, init: nat): (r: seq<Proc>)
    requires me < |t|
    ensures |r| == |t|
  {
    var left := Abandoned(Woken(t, ChanOf(t[me].parent)), me, init);
    left[me := left[me].(mode := ZOMBIE)]
  }

  predicate HasKids(t: seq<Proc>, me: nat) { exists c :: 0 <= c < |t| && t[c].parent == To(me) }

  function Buried(p: Proc): Proc { p.(mode := UNUSED, pid := 0, parent := Null, killed := false) }

  datatype WaitResult = Reaped(pid: nat) | NoChild | Slept

  /** One pass of wait's loop. */
  function Wait(s: Sys, me: nat): (r: (Sys, WaitResult))
    requires me < |s.table|
  {
    var t := s.table[me := s.table[me].(chan := NoChan)];
    var z := FirstZombie(t, me, 0);
    if z.To? then
      (s.(table := t[z.slot := Buried(t[z.slot])], reaped := s.reaped + [t[z.slot].pid]), Reaped(t[z.slot].pid))
    else if !HasKids(t, me) || t[me].killed then (s.(table := t), NoChild)
    else (s.(table := t[me := t[me].(mode := SLEEPING, chan := OfProc(me))]), Slept)
  }

  function FirstUnused(t: seq<Proc>, k: nat): (r: Link)
    requires k <= |t|
    ensures r.To? ==> k <= r.slot < |t| && t[r.slot].mode == UNUSED
    decreases |t| - k
  {
    if k == |t| then Null else if t[k].mode == UNUSED then To(k) else FirstUnused(t, k + 1)
  }

  /** allocproc under the lock, called by fork. */
  function Taken(s: Sys, me: nat): Sys
    requires me < |s.table|
  {
    var c := FirstUnused(s.table, 0);
    if c.Null? then s else
      s.(table := s.table[c.slot := s.table[c.slot].(mode := EMBRYO, pid := s.nextpid)][me := s.table[me].(child := c)],
         nextpid := s.nextpid + 1)
  }

  function FirstPid(t: seq<Proc>, pid: nat, k: nat): (r: Link)
    requires k <= |t|
    ensures r.To? ==> k <= r.slot < |t| && t[r.slot].pid == pid
    ensures r.Null? ==> forall c :: k <= c < |t| ==> t[c].pid != pid
    decreases |t| - k
  {
    if k == |t| then Null else if t[k].pid == pid then To(k) else FirstPid(t, pid, k + 1)
  }

  function KillOne(p: Proc): Proc { p.(killed := true, mode := if p.mode == SLEEPING then RUNNABLE else p.mode) }

  function Killed(t: seq<Proc>, pid: nat): (r: seq<Proc>)
    ensures |r| == |t|
  {
    var c := FirstPid(t, pid, 0);
    if c.Null? then t else t[c.slot := KillOne(t[c.slot])]
  }

  // ----- the operations of a running system

  datatype Op =
    | Schedule(me: nat)
    | Yield(me: nat)
    | SleepOn(me: nat, id: int)
    | WakeUp(id: int)
    | Kill(pid: nat)
    | ForkTake(me: nat)
    | ForkFail(me: nat)
    | ForkParent(me: nat)
    | ForkDone(me: nat)
    | Exit(me: nat)
    | DoWait(me: nat)

  /** A running process that is not in the middle of fork. */
  predicate Free(s: Sys, me: nat) { me < |s.table| && s.table[me].mode == RUNNING && s.table[me].child == Null }

  predicate Forking(s: Sys, me: nat) {
    && me < |s.table| && s.table[me].mode == RUNNING && s.table[me].child.To?
    && s.table[me].child.slot < |s.table| && s.table[me].child.slot != me
  }

  function SetMode(s: Sys, me: nat, mode: Mode): Sys
    requires me < |s.table|
  {
    s.(table := s.table[me := s.table[me].(mode := mode)])
  }

  function Do(s: Sys, op: Op): Sys {
    match op
    case Schedule(me) => if me < |s.table| && s.table[me].mode == RUNNABLE then SetMode(s, me, RUNNING) else s
    case Yield(me) => if me < |s.table| && s.table[me].mode == RUNNING then SetMode(s, me, RUNNABLE) else s
    case SleepOn(me, id) =>
      if Free(s, me) then s.(table := s.table[me := s.table[me].(mode := SLEEPING, chan := Other(id))]) else s
    case WakeUp(id) => s.(table := Woken(s.table, Other(id)))
    case Kill(pid) => s.(table := Killed(s.table, pid))
    case ForkTake(me) => if Free(s, me) then Taken(s, me) else s
    case ForkFail(me) =>
      if Forking(s, me) && s.table[s.table[me].child.slot].parent == Null then
        var c := s.table[me].child.slot;
        s.(table := s.table[c := s.table[c].(mode := UNUSED)][me := s.table[me].(child := Null)],
           failed := s.failed + [s.table[c].pid])
      else s
    case ForkParent(me) =>
      if Forking(s, me) then
        var c := s.table[me].child.slot;
        s.(table := s.table[c := s.table[c].(parent := To(me))])
      else s
    case ForkDone(me) =>
      if Forking(s, me) && s.table[s.table[me].child.slot].parent == To(me) then
        var c := s.table[me].child.slot;
        s.(table := s.table[c := s.table[c].(mode := RUNNABLE)][me := s.table[me].(child := Null)])
      else s
    case Exit(me) => if Free(s, me) && me != s.init then s.(table := Exited(s.table, me, s.init)) else s
    case DoWait(me) => if Free(s, me) then Wait(s, me).0 else s
  }

  /** After userinit: one process, with pid 1. */
  function Boot(): Sys {
    var none := Proc(UNUSED, 0, Null, NoChan, false, Null);
    Sys(seq(NPROC, i => if i == 0 then none.(mode := RUNNABLE, pid := 1) else none), 0, 2, [], [])
  }

  // ----- the invariant

  predicate AsleepInWait(t: seq<Proc>, q: nat) { q < |t| && t[q].mode == SLEEPING && t[q].chan == OfProc(q) }

  /** No process asleep in wait has a zombie child. */
  predicate NoneMissed(t: seq<Proc>) {
    forall q, c :: 0 <= q < |t| && 0 <= c < |t| && AsleepInWait(t, q) ==> !ZombieChild(t, q, c)
  }

  /** A live or zombie process other than init has another, live process as its parent; an
      unused slot and init have none; a slot being built belongs to the process that builds it. */
  predicate Family(t: seq<Proc>, init: nat, c: nat)
    requires c < |t|
  {
    var p := t[c];
    && ((Live(p) || p.mode == ZOMBIE) && c != init ==> p.parent.To? && p.parent.slot < |t| && Live(t[p.parent.slot]))
    && (p.mode == UNUSED || c == init ==> p.parent == Null) && p.parent != To(c)
    && (p.mode == EMBRYO && p.parent.To? ==> p.parent.slot < |t| && t[p.parent.slot].child == To(c))
    && (p.child.To? ==> Live(p) && p.child.slot < |t| && t[p.child.slot].mode == EMBRYO)
  }

  /** No slot is built by two processes. */
  predicate OneBuilder(t: seq<Proc>) {
    forall f, g :: 0 <= f < g < |t| && t[f].child.To? ==> t[f].child != t[g].child
  }

  predicate Holds(t: seq<Proc>, pid: nat, c: nat) { c < |t| && t[c].mode != UNUSED && t[c].pid == pid }

  ghost predicate InTable(t: seq<Proc>, pid: nat) { exists c: nat :: Holds(t, pid, c) }

  /** Every pid given out is in exactly one place: one slot of the table, or once among the
      reaped, or once among the forks that failed. */
  ghost predicate Accounted(s: Sys) {
    && NoDup(s.reaped) && NoDup(s.failed)
    && (forall p :: p in s.reaped ==> 1 <= p < s.nextpid && p !in s.failed && !InTable(s.table, p))
    && (forall p :: p in s.failed ==> 1 <= p < s.nextpid && !InTable(s.table, p))
    && (forall c :: 0 <= c < |s.table| && s.table[c].mode != UNUSED ==> 1 <= s.table[c].pid < s.nextpid)
    && (forall c, d :: 0 <= c < d < |s.table| && s.table[c].mode != UNUSED && s.table[d].mode != UNUSED
                       ==> s.table[c].pid != s.table[d].pid)
    && (forall p :: 1 <= p < s.nextpid ==> p in s.reaped || p in s.failed || InTable(s.table, p))
  }

  ghost predicate Shaped(s: Sys) {
    && |s.table| == NPROC && s.init < NPROC && Live(s.table[s.init]) && s.nextpid >= 1
    && (forall c :: 0 <= c < NPROC ==> Family(s.table, s.init, c))
    && OneBuilder(s.table) && NoneMissed(s.table)
  }

  ghost predicate Inv(s: Sys) { Shaped(s) && Accounted(s) }
}
