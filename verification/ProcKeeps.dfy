/** Every operation on processes keeps the protocol's invariant. */
module ProcKeeps {
  import opened Basics
  import opened ProcSpec

  lemma FamilyAt(s: Sys, c: nat)
    requires Shaped(s) && c < NPROC
    ensures Family(s.table, s.init, c)
  {}

  /** A change of slots that keeps parents, builders, and who is live, unused or a zombie. */
  predicate SameKind(p: Proc, q: Proc) {
    && q.parent == p.parent && q.child == p.child && q.pid == p.pid
    && (Live(p) <==> Live(q)) && (p.mode == UNUSED <==> q.mode == UNUSED)
    && (p.mode == ZOMBIE <==> q.mode == ZOMBIE) && (p.mode == EMBRYO <==> q.mode == EMBRYO)
    && (q.mode == SLEEPING && q.chan.OfProc? ==> p.mode == SLEEPING && p.chan == q.chan)
  }

  predicate SameKinds(t: seq<Proc>, u: seq<Proc>) {
    |u| == |t| && forall i :: 0 <= i < |t| ==> SameKind(t[i], u[i])
  }

  lemma SameKindsKeep(s: Sys, u: seq<Proc>)
    requires Inv(s) && SameKinds(s.table, u)
    ensures Inv(s.(table := u))
  {
    var t := s.table;
    forall c | 0 <= c < NPROC ensures Family(u, s.init, c) {
      FamilyAt(s, c);
    }
    forall q, c | 0 <= q < |u| && 0 <= c < |u| && AsleepInWait(u, q) ensures !ZombieChild(u, q, c) {
      assert AsleepInWait(t, q);
      assert !ZombieChild(t, q, c);
    }
    SamePidsAccounted(s, u);
  }

  lemma SamePidsAccounted(s: Sys, u: seq<Proc>)
    requires Accounted(s) && |u| == |s.table|
    requires forall i :: 0 <= i < |u| ==> u[i].pid == s.table[i].pid && (u[i].mode == UNUSED <==> s.table[i].mode == UNUSED)
    ensures Accounted(s.(table := u))
  {
    forall p ensures InTable(u, p) <==> InTable(s.table, p) {
      forall c: nat ensures Holds(u, p, c) <==> Holds(s.table, p, c) {}
    }
  }

  lemma SetModeSame(t: seq<Proc>, me: nat, p: Proc)
    requires me < |t| && SameKind(t[me], p)
    ensures SameKinds(t, t[me := p])
  {}

  lemma WokenSame(t: seq<Proc>, chan: Chan)
    ensures SameKinds(t, Woken(t, chan))
  {}

  lemma KilledSame(t: seq<Proc>, pid: nat)
    ensures SameKinds(t, Killed(t, pid))
  {}

  // ----- fork

  lemma TakenFamily(s: Sys, me: nat, c: nat, i: nat)
    requires Shaped(s) && Free(s, me) && c < NPROC && s.table[c].mode == UNUSED && i < NPROC
    ensures var u := s.table[c := s.table[c].(mode := EMBRYO, pid := s.nextpid)][me := s.table[me].(child := To(c))];
            Family(u, s.init, i) && s.table[i].child != To(c)
  {
    FamilyAt(s, c);
    FamilyAt(s, i);
  }

  lemma TakenKeeps(s: Sys, me: nat)
    requires Inv(s) && Free(s, me)
    ensures Inv(Taken(s, me))
  {
    hide Family, Accounted;
    var l := FirstUnused(s.table, 0);
    if l.To? {
      var (r, t) := (Taken(s, me), s.table);
      forall i | 0 <= i < NPROC ensures Family(r.table, r.init, i) && t[i].child != l {
        TakenFamily(s, me, l.slot, i);
      }
      forall q, d | 0 <= q < NPROC && 0 <= d < NPROC && AsleepInWait(r.table, q) ensures !ZombieChild(r.table, q, d) {
        assert AsleepInWait(t, q) && !ZombieChild(t, q, d);
      }
      TakenAccounted(s, me, l.slot);
    }
  }

  lemma TakenAccounted(s: Sys, me: nat, c: nat)
    requires Accounted(s) && me < |s.table| && FirstUnused(s.table, 0) == To(c) && s.table[me].mode != UNUSED && s.nextpid >= 1
    ensures Accounted(Taken(s, me))
  {
    var r := Taken(s, me);
    assert Holds(r.table, s.nextpid, c);
    forall p | p != s.nextpid ensures InTable(r.table, p) <==> InTable(s.table, p) {
      forall d: nat ensures Holds(r.table, p, d) <==> Holds(s.table, p, d) {}
    }
    assert !InTable(s.table, s.nextpid);
  }

  /** Ending a fork by giving the slot back or letting the child run keeps the family. */
  lemma BuiltFamily(s: Sys, me: nat, child: Proc, i: nat)
    requires Shaped(s) && Forking(s, me) && i < NPROC
    requires var p := s.table[s.table[me].child.slot];
             || (p.parent == Null && child == p.(mode := UNUSED))
             || (p.parent == To(me) && child == p.(mode := RUNNABLE))
    ensures var c := s.table[me].child.slot;
            Family(s.table[c := child][me := s.table[me].(child := Null)], s.init, i)
  {
    FamilyAt(s, me);
    FamilyAt(s, i);
    FamilyAt(s, s.table[me].child.slot);
    assert i != me ==> s.table[i].child != s.table[me].child || s.table[i].child == Null;
  }

  lemma BuildingMode(s: Sys, me: nat)
    requires Shaped(s) && Forking(s, me)
    ensures s.table[s.table[me].child.slot].mode == EMBRYO
  {
    FamilyAt(s, me);
  }

  lemma ForkFailKeeps(s: Sys, me: nat)
    requires Inv(s) && Forking(s, me) && s.table[s.table[me].child.slot].parent == Null
    ensures Inv(Do(s, ForkFail(me)))
  {
    hide Family, Accounted;
    var (r, c, t) := (Do(s, ForkFail(me)), s.table[me].child.slot, s.table);
    forall i | 0 <= i < NPROC ensures Family(r.table, r.init, i) {
      BuiltFamily(s, me, t[c].(mode := UNUSED), i);
    }
    BuildingMode(s, me);
    forall q, d | 0 <= q < NPROC && 0 <= d < NPROC && AsleepInWait(r.table, q) ensures !ZombieChild(r.table, q, d) {
      assert AsleepInWait(t, q) && !ZombieChild(t, q, d);
    }
    GoneAccounted(s, r.table, c);
  }

  lemma NoDupPush(s: seq<nat>, x: nat)
    requires NoDup(s) && x !in s
    ensures NoDup(s + [x])
  {}

  /** A pid whose slot becomes unused moves to one of the two lists. */
  lemma GoneAccounted(s: Sys, u: seq<Proc>, c: nat)
    requires Accounted(s) && c < |s.table| && |u| == |s.table| && s.table[c].mode != UNUSED && u[c].mode == UNUSED
    requires forall i :: 0 <= i < |u| && i != c ==> u[i].pid == s.table[i].pid && (u[i].mode == UNUSED <==> s.table[i].mode == UNUSED)
    ensures Accounted(s.(table := u, failed := s.failed + [s.table[c].pid]))
    ensures Accounted(s.(table := u, reaped := s.reaped + [s.table[c].pid]))
  {
    var gone := s.table[c].pid;
    assert Holds(s.table, gone, c);
    NoDupPush(s.failed, gone);
    NoDupPush(s.reaped, gone);
    forall p ensures InTable(u, p) <==> InTable(s.table, p) && p != gone {
      if InTable(u, p) {
        var d: nat :| Holds(u, p, d);
        assert Holds(s.table, p, d) && d != c;
      }
      if InTable(s.table, p) && p != gone {
        var d: nat :| Holds(s.table, p, d);
        assert Holds(u, p, d);
      }
    }
  }

  lemma ForkParentKeeps(s: Sys, me: nat)
    requires Inv(s) && Forking(s, me)
    ensures Inv(Do(s, ForkParent(me)))
  {
    var (r, c, t) := (Do(s, ForkParent(me)), s.table[me].child.slot, s.table);
    FamilyAt(s, me);
    forall i | 0 <= i < NPROC ensures Family(r.table, r.init, i) {
      FamilyAt(s, i);
    }
    forall q, d | 0 <= q < NPROC && 0 <= d < NPROC && AsleepInWait(r.table, q) ensures !ZombieChild(r.table, q, d) {
      assert AsleepInWait(t, q) && !ZombieChild(t, q, d);
    }
    SamePidsAccounted(s, r.table);
  }

  lemma ForkDoneKeeps(s: Sys, me: nat)
    requires Inv(s) && Forking(s, me) && s.table[s.table[me].child.slot].parent == To(me)
    ensures Inv(Do(s, ForkDone(me)))
  {
    hide Family, Accounted;
    var (r, c, t) := (Do(s, ForkDone(me)), s.table[me].child.slot, s.table);
    forall i | 0 <= i < NPROC ensures Family(r.table, r.init, i) {
      BuiltFamily(s, me, t[c].(mode := RUNNABLE), i);
    }
    BuildingMode(s, me);
    forall q, d | 0 <= q < NPROC && 0 <= d < NPROC && AsleepInWait(r.table, q) ensures !ZombieChild(r.table, q, d) {
      assert AsleepInWait(t, q) && !ZombieChild(t, q, d);
    }
    SamePidsAccounted(s, r.table);
  }

  // ----- exit

  /** What exit leaves in slot i. */
  lemma ExitedAt(t: seq<Proc>, me: nat, init: nat, i: nat, c: nat)
    requires me < |t| && i < |t| && init < |t|
    ensures var q := Exited(t, me, init)[i];
            && q.child == t[i].child && q.pid == t[i].pid && q.killed == t[i].killed
            && q.parent == (if t[i].parent == To(me) then To(init) else t[i].parent)
            && (i == me ==> q.mode == ZOMBIE)
            && (i != me ==> && (Live(q) <==> Live(t[i])) && (q.mode == UNUSED <==> t[i].mode == UNUSED)
                            && (q.mode == ZOMBIE <==> t[i].mode == ZOMBIE) && (q.mode == EMBRYO <==> t[i].mode == EMBRYO))
            && (q.mode == SLEEPING ==> t[i].mode == SLEEPING && q.chan == t[i].chan && q.chan != ChanOf(t[me].parent))
            && (q.mode == SLEEPING && q.chan == OfProc(init) ==> !ZombieChild(t, me, c))
  {
    var woken := Woken(t, ChanOf(t[me].parent));
    assert ZombieChild(t, me, c) ==> ZombieChild(woken, me, c);
  }

  /** After exit, the parent and, if it got a zombie, init are not asleep in wait. */
  lemma ExitMissesNone(t: seq<Proc>, me: nat, init: nat)
    requires NoneMissed(t) && me < |t| && init < |t| && me != init && t[me].parent != To(me)
    ensures NoneMissed(Exited(t, me, init))
  {
    var u := Exited(t, me, init);
    forall q, c | 0 <= q < |u| && 0 <= c < |u| && AsleepInWait(u, q) ensures !ZombieChild(u, q, c) {
      hide Exited;
      ExitedAt(t, me, init, q, c);
      ExitedAt(t, me, init, c, c);
      assert AsleepInWait(t, q);
      assert !ZombieChild(t, q, c);
      assert ZombieChild(t, me, c) ==> q != init;
    }
  }

  lemma ExitKeeps(s: Sys, me: nat)
    requires Inv(s) && Free(s, me) && me != s.init
    ensures Inv(Do(s, Exit(me)))
  {
    hide Exited, NoneMissed;
    var (t, u) := (s.table, Exited(s.table, me, s.init));
    forall i | 0 <= i < NPROC ensures Family(u, s.init, i) {
      FamilyAt(s, i);
      ExitedAt(t, me, s.init, i, 0);
      if t[i].parent.To? && t[i].parent.slot < NPROC {
        ExitedAt(t, me, s.init, t[i].parent.slot, 0);
      }
      if t[i].child.To? && t[i].child.slot < NPROC {
        ExitedAt(t, me, s.init, t[i].child.slot, 0);
      }
      ExitedAt(t, me, s.init, s.init, 0);
    }
    forall i | 0 <= i < NPROC ensures u[i].pid == t[i].pid && u[i].child == t[i].child && (u[i].mode == UNUSED <==> t[i].mode == UNUSED) {
      ExitedAt(t, me, s.init, i, 0);
    }
    ExitedAt(t, me, s.init, s.init, 0);
    FamilyAt(s, me);
    ExitMissesNone(t, me, s.init);
    SamePidsAccounted(s, u);
  }

  // ----- wait

  lemma WaitKeeps(s: Sys, me: nat)
    requires Inv(s) && Free(s, me)
    ensures Inv(Wait(s, me).0)
  {
    var t := s.table[me := s.table[me].(chan := NoChan)];
    SetModeSame(s.table, me, t[me]);
    SameKindsKeep(s, t);
    var z := FirstZombie(t, me, 0);
    if z.To? {
      ReapKeeps(s.(table := t), me, z.slot);
    } else if HasKids(t, me) && !t[me].killed {
      SleepKeeps(s.(table := t), me);
    }
  }

  lemma SleepKeeps(s: Sys, me: nat)
    requires Inv(s) && Free(s, me) && FirstZombie(s.table, me, 0).Null?
    ensures Inv(s.(table := s.table[me := s.table[me].(mode := SLEEPING, chan := OfProc(me))]))
  {
    var (t, u) := (s.table, s.table[me := s.table[me].(mode := SLEEPING, chan := OfProc(me))]);
    forall i | 0 <= i < NPROC ensures Family(u, s.init, i) {
      FamilyAt(s, i);
    }
    forall q, d | 0 <= q < NPROC && 0 <= d < NPROC && AsleepInWait(u, q) ensures !ZombieChild(u, q, d) {
      assert !ZombieChild(t, q, d);
    }
    SamePidsAccounted(s, u);
  }

  lemma ReapKeeps(s: Sys, me: nat, z: nat)
    requires Inv(s) && Free(s, me) && ZombieChild(s.table, me, z)
    ensures Inv(s.(table := s.table[z := Buried(s.table[z])], reaped := s.reaped + [s.table[z].pid]))
  {
    var (t, u) := (s.table, s.table[z := Buried(s.table[z])]);
    FamilyAt(s, z);
    forall i | 0 <= i < NPROC ensures Family(u, s.init, i) {
      FamilyAt(s, i);
    }
    forall q, d | 0 <= q < NPROC && 0 <= d < NPROC && AsleepInWait(u, q) ensures !ZombieChild(u, q, d) {
      assert AsleepInWait(t, q) && !ZombieChild(t, q, d);
    }
    GoneAccounted(s, u, z);
  }

  // ----- every operation, every run

  lemma DoKeeps(s: Sys, op: Op)
    requires Inv(s)
    ensures Inv(Do(s, op))
  {
    match op
    case Schedule(me) => ModeKeeps(s, op);
    case Yield(me) => ModeKeeps(s, op);
    case SleepOn(me, id) => ModeKeeps(s, op);
    case WakeUp(id) => WokenSame(s.table, Other(id)); SameKindsKeep(s, Woken(s.table, Other(id)));
    case Kill(pid) => KilledSame(s.table, pid); SameKindsKeep(s, Killed(s.table, pid));
    case ForkTake(me) => if Free(s, me) { TakenKeeps(s, me); }
    case ForkFail(me) => if Forking(s, me) && s.table[s.table[me].child.slot].parent == Null { ForkFailKeeps(s, me); }
    case ForkParent(me) => if Forking(s, me) { ForkParentKeeps(s, me); }
    case ForkDone(me) => if Forking(s, me) && s.table[s.table[me].child.slot].parent == To(me) { ForkDoneKeeps(s, me); }
    case Exit(me) => if Free(s, me) && me != s.init { ExitKeeps(s, me); }
    case DoWait(me) => if Free(s, me) { WaitKeeps(s, me); }
  }

  lemma ModeKeeps(s: Sys, op: Op)
    requires Inv(s) && (op.Schedule? || op.Yield? || op.SleepOn?)
    ensures Inv(Do(s, op))
  {
    hide Inv;
    var u := Do(s, op).table;
    assert SameKinds(s.table, u);
    SameKindsKeep(s, u);
  }

  lemma BootInv()
    ensures Inv(Boot())
  {
    assert Holds(Boot().table, 1, 0);
  }

  function After(run: seq<Op>): Sys
    decreases run
  {
    if run == [] then Boot() else Do(After(run[..|run| - 1]), run[|run| - 1])
  }

  /** Every run of any processes keeps the invariant. */
  lemma {:induction false} RunKeeps(run: seq<Op>)
    ensures Inv(After(run))
    decreases run
  {
    hide Inv, Boot, Do;
    if run == [] {
      BootInv();
    } else {
      RunKeeps(run[..|run| - 1]);
      DoKeeps(After(run[..|run| - 1]), run[|run| - 1]);
    }
  }
}
