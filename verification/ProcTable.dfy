/** What the protocol between exit and wait guarantees, and the process table in place. */
module ProcTable {
  import opened Basics
  import opened ProcSpec
  import opened ProcKeeps

  // ----- over every run

  /** A process asleep in wait never has a zombie child to collect. */
  lemma SleeperMissesNone(run: seq<Op>, q: nat, c: nat)
    requires AsleepInWait(After(run).table, q)
    ensures !ZombieChild(After(run).table, q, c)
  {
    hide After;
    RunKeeps(run);
  }

  /** Whoever is alive or a zombie, init aside, has a parent that can still collect it. */
  lemma ParentIsLive(run: seq<Op>, c: nat)
    requires var s := After(run); c < |s.table| && c != s.init && (Live(s.table[c]) || s.table[c].mode == ZOMBIE)
    ensures var t := After(run).table;
            && t[c].parent.To? && t[c].parent.slot < |t|
            && t[t[c].parent.slot].mode != UNUSED && t[t[c].parent.slot].mode != ZOMBIE
  {
    hide After;
    RunKeeps(run);
    FamilyAt(After(run), c);
  }

  /** Every pid given out is still in the table, or was reaped exactly once, or belonged to a
      fork that failed; and never two of these. */
  lemma ReapedExactlyOnce(run: seq<Op>, pid: nat)
    requires 1 <= pid < After(run).nextpid
    ensures var s := After(run);
            && multiset(s.reaped)[pid] <= 1
            && (multiset(s.reaped)[pid] == 1 <==> pid !in s.failed && !InTable(s.table, pid))
            && (pid in s.failed ==> !InTable(s.table, pid))
  {
    hide After;
    RunKeeps(run);
    CountsOnce(After(run).reaped, pid);
  }

  lemma {:induction false} CountsOnce(s: seq<nat>, x: nat)
    requires NoDup(s)
    ensures multiset(s)[x] == if x in s then 1 else 0
    decreases s
  {
    if s != [] {
      var (front, last) := (s[..|s| - 1], s[|s| - 1]);
      assert s == front + [last];
      assert forall i :: 0 <= i < |front| ==> front[i] == s[i];
      CountsOnce(front, x);
    }
  }

  // ----- handing a zombie over

  /** When a process exits, its parent has a zombie to collect and is not asleep in wait. */
  lemma ExitHandsOver(s: Sys, me: nat)
    requires Inv(s) && Free(s, me) && me != s.init
    ensures var (p, u) := (s.table[me].parent, Do(s, Exit(me)).table);
            p.To? && ZombieChild(u, p.slot, me) && !AsleepInWait(u, p.slot)
  {
    hide Exited;
    FamilyAt(s, me);
    ExitedAt(s.table, me, s.init, me, 0);
    ExitKeeps(s, me);
    var p := s.table[me].parent.slot;
    assert ZombieChild(Do(s, Exit(me)).table, p, me);
  }

  /** All that exit changes: the caller is a zombie, its children are init's, and awake is whoever
      slept in wait as its parent, or as init if one of those children was a zombie. */
  lemma ExitChanges(s: Sys, me: nat)
    requires Inv(s) && Free(s, me) && me != s.init
    ensures var (t, r) := (s.table, Do(s, Exit(me)));
            && |r.table| == |t| && r == s.(table := r.table)
            && forall i: nat :: i < |t| ==>
                 r.table[i] == t[i].(parent := if t[i].parent == To(me) then To(s.init) else t[i].parent,
                                     mode := if i == me then ZOMBIE else if WokenByExit(s, me, i) then RUNNABLE else t[i].mode)
  {
    FamilyAt(s, me);
    forall i: nat | i < |s.table|
      ensures Do(s, Exit(me)).table[i]
           == s.table[i].(parent := if s.table[i].parent == To(me) then To(s.init) else s.table[i].parent,
                          mode := if i == me then ZOMBIE else if WokenByExit(s, me, i) then RUNNABLE else s.table[i].mode)
    {
      ExitChangesAt(s, me, i);
    }
  }

  lemma ExitChangesAt(s: Sys, me: nat, i: nat)
    requires me < |s.table| && i < |s.table| && s.table[me].parent.To?
    ensures var p := s.table[i];
            Exited(s.table, me, s.init)[i] == p.(parent := if p.parent == To(me) then To(s.init) else p.parent,
                                                 mode := if i == me then ZOMBIE else if WokenByExit(s, me, i) then RUNNABLE else p.mode)
  {
    var woken := Woken(s.table, ChanOf(s.table[me].parent));
    assert forall c: nat :: ZombieChild(woken, me, c) <==> ZombieChild(s.table, me, c);
    assert FirstZombie(woken, me, 0).To? <==> exists c: nat :: ZombieChild(s.table, me, c);
    assert (exists c: nat :: ZombieChild(s.table, me, c))
      <==> exists c: nat :: c < |s.table| && s.table[c].parent == To(me) && s.table[c].mode == ZOMBIE by {
      if c: nat :| c < |s.table| && s.table[c].parent == To(me) && s.table[c].mode == ZOMBIE {
        assert ZombieChild(s.table, me, c);
      }
    }
  }

  ghost predicate WokenByExit(s: Sys, me: nat, i: nat)
    requires me < |s.table| && i < |s.table|
  {
    && s.table[i].mode == SLEEPING
    && ((s.table[me].parent.To? && s.table[i].chan == OfProc(s.table[me].parent.slot))
        || (s.table[i].chan == OfProc(s.init) && exists c: nat :: c < |s.table| && s.table[c].parent == To(me) && s.table[c].mode == ZOMBIE))
  }

  /** All that wait changes: with a zombie child, the lowest such slot is emptied and nothing
      else but the caller's channel; otherwise the caller alone, which sleeps on its own entry. */
  lemma WaitChanges(s: Sys, me: nat)
    requires Inv(s) && Free(s, me)
    ensures var (t, (r, w)) := (s.table, Wait(s, me));
            && |r.table| == |t| && (r.init, r.nextpid, r.failed) == (s.init, s.nextpid, s.failed)
            && (w.Reaped? ==> exists z: nat ::
                  && z < |t| && z != me && t[z].parent == To(me) && t[z].mode == ZOMBIE && w.pid == t[z].pid
                  && (forall c: nat :: c < z ==> !(t[c].parent == To(me) && t[c].mode == ZOMBIE))
                  && r.table[z] == Proc(UNUSED, 0, Null, t[z].chan, false, t[z].child)
                  && forall i: nat :: i < |t| && i != z ==> r.table[i] == if i == me then t[i].(chan := NoChan) else t[i])
            && (!w.Reaped? ==> r.reaped == s.reaped && forall i: nat :: i < |t| && i != me ==> r.table[i] == t[i])
            && (w.NoChild? ==> r.table[me] == t[me].(chan := NoChan))
            && (w.Slept? ==> r.table[me] == t[me].(mode := SLEEPING, chan := OfProc(me)))
  {
    var t := s.table[me := s.table[me].(chan := NoChan)];
    var z := FirstZombie(t, me, 0);
    if z.To? {
      NoneBefore(t, me, 0);
      FamilyAt(s, me);
      forall c: nat | c < z.slot ensures !(s.table[c].parent == To(me) && s.table[c].mode == ZOMBIE) {
        assert !ZombieChild(t, me, c);
      }
    }
  }

  lemma {:induction false} NoneBefore(t: seq<Proc>, me: nat, k: nat)
    requires k <= |t| && FirstZombie(t, me, k).To?
    ensures forall c: nat :: k <= c < FirstZombie(t, me, k).slot ==> !ZombieChild(t, me, c)
    decreases |t| - k
  {
    if !ZombieChild(t, me, k) { NoneBefore(t, me, k + 1); }
  }

  /** A fork that is not interrupted: the lowest unused slot holds a runnable child of the caller
      with the next pid, and nothing else has changed; with every slot in use it fails. */
  lemma ForkMakesChild(s: Sys, me: nat)
    requires Inv(s) && Free(s, me)
    ensures var (t, r) := (s.table, Do(Do(Do(s, ForkTake(me)), ForkParent(me)), ForkDone(me)));
            if forall c: nat :: c < |t| ==> t[c].mode != UNUSED then r == s
            else exists c: nat ::
                   && c < |t| && t[c].mode == UNUSED && (forall d: nat :: d < c ==> t[d].mode != UNUSED)
                   && r == s.(table := t[c := t[c].(mode := RUNNABLE, pid := s.nextpid, parent := To(me))], nextpid := s.nextpid + 1)
  {
    hide Inv;
    FirstUnusedIs(s.table, 0);
    var c := FirstUnused(s.table, 0);
    if c.To? {
      var r := Do(Do(Do(s, ForkTake(me)), ForkParent(me)), ForkDone(me));
      assert r.table == s.table[c.slot := s.table[c.slot].(mode := RUNNABLE, pid := s.nextpid, parent := To(me))];
    }
  }

  lemma {:induction false} FirstUnusedIs(t: seq<Proc>, k: nat)
    requires k <= |t|
    ensures var r := FirstUnused(t, k);
            if r.Null? then forall c: nat :: k <= c < |t| ==> t[c].mode != UNUSED
            else forall c: nat :: k <= c < r.slot ==> t[c].mode != UNUSED
    decreases |t| - k
  {
    if k < |t| && t[k].mode != UNUSED { FirstUnusedIs(t, k + 1); }
  }

  /** wait returns a pid exactly when there is a zombie child: then that child's, once and
      for all; it sleeps only if there are children and none is a zombie. */
  lemma WaitCollects(s: Sys, me: nat)
    requires Inv(s) && Free(s, me)
    ensures var (t, (r, w)) := (s.table, Wait(s, me));
            && (w.Reaped? <==> exists c: nat :: ZombieChild(t, me, c))
            && (w.Reaped? ==> && r.reaped == s.reaped + [w.pid] && w.pid !in s.reaped
                              && exists c: nat :: ZombieChild(t, me, c) && t[c].pid == w.pid && r.table[c].mode == UNUSED)
            && (w.Slept? <==> && (exists c: nat :: c < |t| && t[c].parent == To(me)) && !t[me].killed
                              && forall c: nat :: c < |t| && t[c].parent == To(me) ==> t[c].mode != ZOMBIE)
  {
    var t := s.table[me := s.table[me].(chan := NoChan)];
    var z := FirstZombie(t, me, 0);
    forall c: nat ensures ZombieChild(t, me, c) <==> ZombieChild(s.table, me, c) {}
    assert HasKids(t, me) <==> HasKids(s.table, me) by {
      assert forall c :: 0 <= c < |t| ==> t[c].parent == s.table[c].parent;
    }
    if z.To? {
      assert Holds(s.table, t[z.slot].pid, z.slot);
      assert ZombieChild(s.table, me, z.slot);
    } else {
      forall c: nat | c < |s.table| && s.table[c].parent == To(me) ensures s.table[c].mode != ZOMBIE {
        assert !ZombieChild(s.table, me, c);
      }
    }
  }

  function Zombies(t: seq<Proc>, me: nat, k: nat): nat
    requires k <= |t|
    decreases |t| - k
  {
    if k == |t| then 0 else (if ZombieChild(t, me, k) then 1 else 0) + Zombies(t, me, k + 1)
  }

  lemma {:induction false} BuryOne(t: seq<Proc>, u: seq<Proc>, me: nat, k: nat, z: nat)
    requires k <= |t| && |u| == |t| && k <= z < |t| && ZombieChild(t, me, z) && !ZombieChild(u, me, z)
    requires forall c :: 0 <= c < |t| && c != z ==> (ZombieChild(u, me, c) <==> ZombieChild(t, me, c))
    ensures Zombies(t, me, k) == Zombies(u, me, k) + 1
    decreases |t| - k
  {
    if k < z {
      BuryOne(t, u, me, k + 1, z);
    } else {
      SameZombies(t, u, me, k + 1);
    }
  }

  lemma {:induction false} SameZombies(t: seq<Proc>, u: seq<Proc>, me: nat, k: nat)
    requires k <= |t| && |u| == |t|
    requires forall c :: k <= c < |t| ==> (ZombieChild(u, me, c) <==> ZombieChild(t, me, c))
    ensures Zombies(t, me, k) == Zombies(u, me, k)
    decreases |t| - k
  {
    if k < |t| {
      SameZombies(t, u, me, k + 1);
    }
  }

  lemma {:induction false} NoZombies(t: seq<Proc>, me: nat, k: nat)
    requires k <= |t|
    ensures Zombies(t, me, k) == 0 <==> FirstZombie(t, me, k).Null?
    decreases |t| - k
  {
    if k < |t| {
      NoZombies(t, me, k + 1);
    }
  }

  /** The same process calling wait n times. */
  function Waits(s: Sys, me: nat, n: nat): (r: Sys)
    requires me < |s.table|
    ensures |r.table| == |s.table|
    decreases n
  {
    if n == 0 then s else Waits(Wait(s, me).0, me, n - 1)
  }

  /** As many calls of wait as there are zombie children collect them all, each once. */
  lemma {:induction false} WaitsCollectAll(s: Sys, me: nat, n: nat)
    requires Inv(s) && Free(s, me) && n == Zombies(s.table, me, 0)
    ensures var r := Waits(s, me, n);
            Inv(r) && |r.reaped| == |s.reaped| + n && s.reaped <= r.reaped && forall c: nat :: !ZombieChild(r.table, me, c)
    decreases n
  {
    NoZombies(s.table, me, 0);
    if n == 0 {
      assert forall c: nat :: !ZombieChild(s.table, me, c);
    } else {
      hide Inv;
      WaitKeeps(s, me);
      WaitBuries(s, me);
      WaitsCollectAll(Wait(s, me).0, me, n - 1);
    }
  }

  lemma WaitBuries(s: Sys, me: nat)
    requires Inv(s) && Free(s, me) && Zombies(s.table, me, 0) > 0
    ensures var (r, w) := Wait(s, me);
            && w.Reaped? && r.reaped == s.reaped + [w.pid] && Free(r, me)
            && Zombies(r.table, me, 0) == Zombies(s.table, me, 0) - 1
  {
    var t := s.table[me := s.table[me].(chan := NoChan)];
    NoZombies(t, me, 0);
    SameZombies(s.table, t, me, 0);
    var z := FirstZombie(t, me, 0).slot;
    FamilyAt(s, z);
    BuryOne(t, Wait(s, me).0.table, me, 0, z);
  }

  // ----- the table in place

  class Kernel {
    const table: array<Proc>
    const init: nat
    var nextpid: nat
    ghost var reaped: seq<nat>
    ghost var failed: seq<nat>

    ghost function Now(): Sys
      reads this, table
    {
      Sys(table[..], init, nextpid, reaped, failed)
    }

    ghost predicate Valid()
      reads this, table
    {
      table.Length == NPROC && Inv(Now())
    }

    constructor ()
      ensures Valid() && Now() == Boot()
    {
      table := new Proc[NPROC](i =>
        if i == 0 then Proc(RUNNABLE, 1, Null, NoChan, false, Null) else Proc(UNUSED, 0, Null, NoChan, false, Null));
      init, nextpid, reaped, failed := 0, 2, [], [];
      new;
      assert table[..] == Boot().table;
      BootInv();
    }

    method Wakeup1(chan: Chan)
      modifies table
      ensures table[..] == Woken(old(table[..]), chan)
      ensures forall i :: 0 <= i < table.Length ==>
                table[i] == if old(table[i]).mode == SLEEPING && old(table[i]).chan == chan then old(table[i]).(mode := RUNNABLE)
                            else old(table[i])
    {
      var p := 0;
      while p < table.Length
        invariant 0 <= p <= table.Length
        invariant forall i :: 0 <= i < p ==> table[i] == WakeOne(old(table[i]), chan)
        invariant forall i :: p <= i < table.Length ==> table[i] == old(table[i])
      {
        if table[p].mode == SLEEPING && table[p].chan == chan {
          table[p] := table[p].(mode := RUNNABLE);
        }
        p := p + 1;
      }
    }

    /** The loop of exit that passes the children to init. */
    method Abandon(me: nat)
      modifies table
      ensures table[..] == Abandoned(old(table[..]), me, init)
    {
      ghost var t := table[..];
      ghost var told := false;
      var p := 0;
      while p < table.Length
        invariant 0 <= p <= table.Length
        invariant forall i :: 0 <= i < table.Length ==> table[i] == Partly(t[i], me, init, i < p, told)
        invariant told <==> exists c :: 0 <= c < p && ZombieChild(t, me, c)
      {
        if table[p].parent == To(me) {
          table[p] := table[p].(parent := To(init));
          if table[p].mode == ZOMBIE {
            assert ZombieChild(t, me, p);
            Wakeup1(OfProc(init));
            told := true;
          }
        }
        p := p + 1;
      }
      FirstZombieFound(t, me, told);
    }

    /** exit, from taking the table lock to switching away. */
    method Exit(me: nat)
      requires Valid() && Free(Now(), me) && me != init
      modifies table
      ensures Valid() && Now() == Do(old(Now()), Op.Exit(me))
    {
      hide Inv, Woken, Abandoned;
      ExitKeeps(Now(), me);
      Wakeup1(ChanOf(table[me].parent));
      Abandon(me);
      table[me] := table[me].(mode := ZOMBIE);
    }

    /** wait, from taking the table lock to its return or its sleep. */
    method WaitPass(me: nat) returns (r: WaitResult)
      requires Valid() && Free(Now(), me)
      modifies table, `reaped
      ensures Valid() && (Now(), r) == Wait(old(Now()), me)
    {
      WaitKeeps(Now(), me);
      table[me] := table[me].(chan := NoChan);
      ghost var t := table[..];
      var havekids := false;
      var p := 0;
      while p < table.Length
        invariant 0 <= p <= table.Length && table[..] == t
        invariant havekids <==> exists c :: 0 <= c < p && t[c].parent == To(me)
        invariant FirstZombie(t, me, 0) == FirstZombie(t, me, p)
        modifies {}
      {
        if table[p].parent == To(me) {
          havekids := true;
          if table[p].mode == ZOMBIE {
            break;
          }
        }
        p := p + 1;
      }
      if p < table.Length {
        r := Reaped(table[p].pid);
        reaped := reaped + [table[p].pid];
        table[p] := table[p].(mode := UNUSED, pid := 0, parent := Null, killed := false);
      } else if !havekids || table[me].killed {
        r := NoChild;
      } else {
        table[me] := table[me].(mode := SLEEPING, chan := OfProc(me));
        r := Slept;
      }
    }

    /** kill; whether a slot had that pid. */
    method Kill(pid: nat) returns (found: bool)
      requires Valid()
      modifies table
      ensures Valid() && Now() == Do(old(Now()), Op.Kill(pid))
      ensures found <==> pid in old(Pids())
      ensures forall i :: 0 <= i < table.Length ==>
                table[i] == if old(table[i]).pid == pid && (forall j :: 0 <= j < i ==> old(table[j]).pid != pid)
                            then old(table[i]).(killed := true, mode := if old(table[i]).mode == SLEEPING then RUNNABLE else old(table[i]).mode)
                            else old(table[i])
    {
      DoKeeps(Now(), Op.Kill(pid));
      var p := 0;
      while p < table.Length && table[p].pid != pid
        invariant 0 <= p <= table.Length
        invariant forall i :: 0 <= i < p ==> table[i].pid != pid
        invariant FirstPid(table[..], pid, 0) == FirstPid(table[..], pid, p)
        modifies {}
      {
        p := p + 1;
      }
      found := p < table.Length;
      if found {
        assert Pids()[p] == pid;
        table[p] := table[p].(killed := true, mode := if table[p].mode == SLEEPING then RUNNABLE else table[p].mode);
      }
    }

    ghost function Pids(): seq<nat>
      reads table
    {
      seq(table.Length, i requires 0 <= i < table.Length reads table => table[i].pid)
    }

    /** allocproc under the lock, as fork calls it. */
    method AllocProc(me: nat) returns (ok: bool)
      requires Valid() && Free(Now(), me)
      modifies table, `nextpid
      ensures Valid() && Now() == Do(old(Now()), ForkTake(me)) && ok == (FirstUnused(old(table[..]), 0) != Null)
    {
      TakenKeeps(Now(), me);
      var p := 0;
      while p < table.Length && table[p].mode != UNUSED
        invariant 0 <= p <= table.Length
        invariant FirstUnused(table[..], 0) == FirstUnused(table[..], p)
        modifies {}
      {
        p := p + 1;
      }
      ok := p < table.Length;
      if ok {
        table[p] := table[p].(mode := EMBRYO, pid := nextpid);
        nextpid := nextpid + 1;
        table[me] := table[me].(child := To(p));
      }
    }
  }

  /** A slot in the middle of exit's loop: perhaps already adopted, perhaps told of a zombie. */
  function Partly(p: Proc, me: nat, init: nat, seen: bool, told: bool): Proc {
    var q := if seen then Adopt(p, me, init) else p;
    if told then WakeOne(q, OfProc(init)) else q
  }

  lemma FirstZombieFound(t: seq<Proc>, me: nat, told: bool)
    requires told <==> exists c :: 0 <= c < |t| && ZombieChild(t, me, c)
    ensures told <==> FirstZombie(t, me, 0).To?
  {}
}
