/** The memory of all processes over every run of fork, growproc, growstack and wait. */
module VmRuns {
  import opened Basics
  import opened VmSpec
  import opened VmRange
  import opened VmCopy
  import opened VmLayout
  import opened VmKernel

  /** `kpgdir` is the directory the kernel itself runs on. */
  datatype Sys = Sys(mem: Mem, kpgdir: nat, procs: map<nat, Image>)

  datatype Op = Grow(p: nat, n: int) | Stack(p: nat) | Spawn(p: nat, child: nat) | Collect(p: nat)

  /** Two processes share neither directory nor kernel stack. */
  predicate Apart(s: Sys, p: nat, q: nat)
    requires p in s.procs && q in s.procs
  {
    s.procs[p].dir != s.procs[q].dir && s.procs[p].kstack != s.procs[q].kstack
  }

  ghost predicate ProcOk(s: Sys, p: nat)
    requires p in s.procs
  {
    Layout(s.mem, s.procs[p]) && IsUsed(s.mem, s.procs[p].kstack, Kernel) && s.procs[p].dir != s.kpgdir
  }

  predicate HasDir(s: Sys, p: nat, d: nat) { p in s.procs && s.procs[p].dir == d }

  predicate HasStack(s: Sys, p: nat, f: nat) { p in s.procs && s.procs[p].kstack == f }

  /** No directory and no kernel frame is left over: each belongs to a process, or is the kernel's own. */
  ghost predicate NoStray(s: Sys) {
    && s.kpgdir in s.mem.spaces
    && (forall d :: d in s.mem.spaces && d != s.kpgdir ==> exists p :: HasDir(s, p, d))
    && (forall f :: IsUsed(s.mem, f, Kernel) ==> exists p :: HasStack(s, p, f))
  }

  ghost predicate Inv(s: Sys) {
    && MemOk(s.mem) && NoStray(s)
    && (forall p :: p in s.procs ==> ProcOk(s, p))
    && (forall p, q :: p in s.procs && q in s.procs && p != q ==> Apart(s, p, q))
  }

  /** The calls a run is made of: existing processes, free slots for children, 32-bit arguments. */
  predicate Possible(s: Sys, op: Op) {
    match op
    case Grow(p, n) => p in s.procs && s.procs[p].dir in s.mem.spaces && Int32(n)
    case Stack(p) => p in s.procs && s.procs[p].dir in s.mem.spaces
    case Spawn(p, child) => p in s.procs && child !in s.procs && s.procs[p].stack <= UPAGES
    case Collect(p) => p in s.procs && s.procs[p].dir in s.mem.spaces
  }

  /** All but the two calls that do harm: a shrink too far, and a fork with from 2 to 13 free frames. */
  predicate Harmless(s: Sys, op: Op)
    requires Possible(s, op)
  {
    match op
    case Grow(p, n) => !ShrinksTooFar(s.procs[p], n)
    case Spawn(_, _) => !ForkLoses(|s.mem.free|)
    case _ => true
  }

  function Do(s: Sys, op: Op, data: nat): Sys
    requires DataOk(data) && Possible(s, op)
  {
    match op
    case Grow(p, n) => var r := Growproc(s.mem, s.procs[p], n); s.(mem := r.0, procs := s.procs[p := r.1])
    case Stack(p) => var r := Growstack(s.mem, s.procs[p]); s.(mem := r.0, procs := s.procs[p := r.1])
    case Spawn(p, child) =>
      var r := Fork(s.mem, s.procs[p], data);
      s.(mem := r.0, procs := if r.1.NoChild? then s.procs else s.procs[child := r.1.im])
    case Collect(p) => s.(mem := Reap(s.mem, s.procs[p]), procs := s.procs - {p})
  }

  // ----- every frame has one owner

  /** What a process owns: the frames of its address space and its kernel stack. */
  ghost function Holdings(s: Sys, p: nat): set<nat>
    requires p in s.procs
  {
    Owned(s.mem, s.procs[p].dir) + {s.procs[p].kstack}
  }

  /** No frame is lost: each is free, the kernel directory's, or some process's. */
  lemma EveryFrameIsOwned(s: Sys, f: nat)
    requires Inv(s) && Managed(s.mem, f)
    ensures f in s.mem.free || f in Owned(s.mem, s.kpgdir) || exists p :: p in s.procs && f in Holdings(s, p)
  {
    hide Owned;
    if f !in s.mem.free {
      UsedBy(s.mem, f);
      if IsUsed(s.mem, f, Kernel) {
        var p :| HasStack(s, p, f);
        assert f in Holdings(s, p);
      } else {
        var d :| d in s.mem.spaces && f in Owned(s.mem, d);
        if d != s.kpgdir {
          var p :| HasDir(s, p, d);
          assert f in Holdings(s, p);
        }
      }
    }
  }

  /** And never two of these. */
  lemma HoldingsApart(s: Sys, p: nat, q: nat)
    requires Inv(s) && p in s.procs && q in s.procs
    ensures Holdings(s, p) !! FreeSet(s.mem) && Holdings(s, p) !! Owned(s.mem, s.kpgdir)
    ensures p != q ==> Holdings(s, p) !! Holdings(s, q)
  {
    hide MemOk, Layout, Owned, NoStray;
    ProcAt(s, p);
    ProcAt(s, q);
    assert p != q ==> Apart(s, p, q);
    OwnedApart(s.mem, s.procs[p].dir, s.procs[q].dir);
    OwnedApart(s.mem, s.procs[q].dir, s.kpgdir);
    OwnedApart(s.mem, s.kpgdir, s.procs[p].dir);
    UsedNotFree(s.mem, s.procs[p].kstack);
  }

  lemma UsedNotFree(m: Mem, f: nat)
    requires MemOk(m) && f in m.use
    ensures f !in m.free
  {}

  // ----- what each call keeps

  lemma ProcAt(s: Sys, p: nat)
    requires Inv(s) && p in s.procs
    ensures ProcOk(s, p) && s.procs[p].dir in s.mem.spaces
  {}

  lemma OthersKeep(s: Sys, r: Mem, q: nat, d: nat)
    requires Inv(s) && q in s.procs && Sole(s.mem, r, d) && s.procs[q].dir != d
    ensures Layout(r, s.procs[q]) && Untouched(s.mem, r, s.procs[q].dir)
  {
    ProcAt(s, q);
    assert Untouched(s.mem, r, s.procs[q].dir);
    SameLayout(s.mem, r, s.procs[q]);
  }

  lemma SameStray(s: Sys, p: nat, r: Mem, im: Image)
    requires NoStray(s) && p in s.procs && Sole(s.mem, r, s.procs[p].dir)
    requires im.dir == s.procs[p].dir && im.kstack == s.procs[p].kstack
    ensures NoStray(s.(mem := r, procs := s.procs[p := im]))
  {
    hide Untouched;
    var t := s.(mem := r, procs := s.procs[p := im]);
    forall d | d in r.spaces && d != s.kpgdir ensures exists q :: HasDir(t, q, d) {
      var q :| HasDir(s, q, d);
      assert HasDir(t, q, d);
    }
    forall f | IsUsed(r, f, Kernel) ensures exists q :: HasStack(t, q, f) {
      var q :| HasStack(s, q, f);
      assert HasStack(t, q, f);
    }
  }

  /** One process's own change of size keeps everything else; the layout of its own memory
      decides the rest. */
  lemma OwnChangeKeeps(s: Sys, p: nat, r: Mem, im: Image)
    requires Inv(s) && p in s.procs && MemOk(r) && Sole(s.mem, r, s.procs[p].dir)
    requires im.dir == s.procs[p].dir && im.kstack == s.procs[p].kstack
    ensures Inv(s.(mem := r, procs := s.procs[p := im])) <==> Layout(r, im)
    ensures forall q :: q in s.procs && q != p ==> Untouched(s.mem, r, s.procs[q].dir)
  {
    hide MemOk, Layout, Untouched, NoStray;
    var t := s.(mem := r, procs := s.procs[p := im]);
    ProcAt(s, p);
    SoleGives(s.mem, r, im.dir);
    SameStray(s, p, r, im);
    forall q | q in s.procs && q != p ensures Untouched(s.mem, r, s.procs[q].dir) && Layout(r, s.procs[q]) {
      assert Apart(s, p, q);
      OthersKeep(s, r, q, im.dir);
    }
    if Layout(r, im) {
      forall q | q in t.procs ensures ProcOk(t, q) {
        ProcAt(s, q);
      }
      forall q, u | q in t.procs && u in t.procs && q != u ensures Apart(t, q, u) {
        assert Apart(s, q, u);
      }
    } else {
      assert !ProcOk(t, p);
    }
  }

  lemma UntouchedSame(m: Mem, r: Mem, e: nat)
    requires AllUntouched(m, r) && e in m.spaces
    ensures e in r.spaces && r.spaces[e] == m.spaces[e]
  {
    assert Untouched(m, r, e);
  }

  /** A fork without loss. */
  lemma SpawnKeeps(s: Sys, p: nat, child: nat, data: nat)
    requires Inv(s) && DataOk(data) && Possible(s, Spawn(p, child)) && !ForkLoses(|s.mem.free|)
    ensures Inv(Do(s, Spawn(p, child), data)) && AllUntouched(s.mem, Do(s, Spawn(p, child), data).mem)
  {
    hide MemOk, Layout, Untouched, Fork, SamePages, FreeSet, NoStray;
    var im := s.procs[p];
    ProcAt(s, p);
    ForkCopies(s.mem, im, data);
    var (r, c) := Fork(s.mem, im, data);
    var t := Do(s, Spawn(p, child), data);
    forall q | q in t.procs ensures ProcOk(t, q) {
      if q in s.procs {
        ProcAt(s, q);
        UntouchedSame(s.mem, r, s.procs[q].dir);
        SameLayout(s.mem, r, s.procs[q]);
      } else {
        KernelDir(s);
      }
    }
    forall q, u | q in t.procs && u in t.procs && q != u ensures Apart(t, q, u) {
      if q in s.procs { ProcAt(s, q); }
      if u in s.procs { ProcAt(s, u); }
      if q in s.procs && u in s.procs { assert Apart(s, q, u); }
    }
    SpawnStray(s, r, c, child);
  }

  lemma KernelDir(s: Sys)
    requires NoStray(s)
    ensures s.kpgdir in s.mem.spaces
  {}

  lemma SpawnStray(s: Sys, r: Mem, c: Child, child: nat)
    requires NoStray(s) && child !in s.procs
    requires match c
             case Child(q) => && r.spaces.Keys == s.mem.spaces.Keys + {q.dir}
                              && forall f :: f != q.kstack ==> (IsUsed(s.mem, f, Kernel) <==> IsUsed(r, f, Kernel))
             case NoChild => r.spaces == s.mem.spaces && SameKernel(s.mem, r)
    ensures NoStray(s.(mem := r, procs := if c.NoChild? then s.procs else s.procs[child := c.im]))
  {
    var t := s.(mem := r, procs := if c.NoChild? then s.procs else s.procs[child := c.im]);
    forall d | d in r.spaces && d != s.kpgdir ensures exists q :: HasDir(t, q, d) {
      if d in s.mem.spaces {
        var q :| HasDir(s, q, d);
        assert HasDir(t, q, d);
      } else {
        assert HasDir(t, child, d);
      }
    }
    forall f | IsUsed(r, f, Kernel) ensures exists q :: HasStack(t, q, f) {
      if c.Child? && f == c.im.kstack {
        assert HasStack(t, child, f);
      } else {
        var q :| HasStack(s, q, f);
        assert HasStack(t, q, f);
      }
    }
  }

  /** A fork that loses frames leaves a directory behind that nobody has. */
  lemma SpawnLoses(s: Sys, p: nat, child: nat, data: nat)
    requires Inv(s) && DataOk(data) && Possible(s, Spawn(p, child)) && ForkLoses(|s.mem.free|)
    ensures var t := Do(s, Spawn(p, child), data);
            && !Inv(t) && t.procs == s.procs && AllUntouched(s.mem, t.mem) && |FreeSet(t.mem)| == 1 && FreeSet(t.mem) != FreeSet(s.mem)
  {
    hide MemOk, Layout, Untouched, Fork, SamePages, FreeSet;
    ProcAt(s, p);
    ForkCopies(s.mem, s.procs[p], data);
    var t := Do(s, Spawn(p, child), data);
    var d := s.mem.free[1];
    assert d in t.mem.spaces && d != s.kpgdir;
    forall q | q in s.procs ensures !HasDir(t, q, d) {
      ProcAt(s, q);
    }
  }

  lemma CollectKeeps(s: Sys, p: nat)
    requires Inv(s) && p in s.procs && s.procs[p].dir in s.mem.spaces
    ensures Inv(s.(mem := Reap(s.mem, s.procs[p]), procs := s.procs - {p}))
    ensures forall q :: q in s.procs && q != p ==> Untouched(s.mem, Reap(s.mem, s.procs[p]), s.procs[q].dir)
  {
    hide MemOk, Layout, Untouched, Reap, FreeSet, Owned, NoStray;
    var im := s.procs[p];
    ProcAt(s, p);
    ReapReturns(s.mem, im);
    var t := s.(mem := Reap(s.mem, im), procs := s.procs - {p});
    forall q | q in t.procs ensures ProcOk(t, q) {
      ProcAt(s, q);
      assert Apart(s, p, q);
      SameLayout(s.mem, t.mem, s.procs[q]);
    }
    forall q, u | q in t.procs && u in t.procs && q != u ensures Apart(t, q, u) {
      assert Apart(s, q, u);
    }
    forall q | q in s.procs && q != p ensures Untouched(s.mem, t.mem, s.procs[q].dir) {
      ProcAt(s, q);
      assert Apart(s, p, q);
    }
    CollectStray(s, p, t.mem);
  }

  lemma CollectStray(s: Sys, p: nat, r: Mem)
    requires NoStray(s) && p in s.procs && s.procs[p].dir != s.kpgdir && r.spaces == s.mem.spaces - {s.procs[p].dir}
    requires !IsUsed(r, s.procs[p].kstack, Kernel)
    requires forall f :: f != s.procs[p].kstack ==> (IsUsed(s.mem, f, Kernel) <==> IsUsed(r, f, Kernel))
    ensures NoStray(s.(mem := r, procs := s.procs - {p}))
  {
    var t := s.(mem := r, procs := s.procs - {p});
    forall d | d in r.spaces && d != s.kpgdir ensures exists q :: HasDir(t, q, d) {
      var q :| HasDir(s, q, d);
      assert HasDir(t, q, d);
    }
    forall f | IsUsed(r, f, Kernel) ensures exists q :: HasStack(t, q, f) {
      var q :| HasStack(s, q, f);
      assert HasStack(t, q, f);
    }
  }

  /** A call keeps every layout and every frame owned exactly when it is harmless; harmless or
      not, it moves and changes nothing of the other processes' pages. */
  lemma DoKeepsExactly(s: Sys, op: Op, data: nat)
    requires Inv(s) && DataOk(data) && Possible(s, op)
    ensures Inv(Do(s, op, data)) <==> Harmless(s, op)
    ensures forall q :: q in s.procs && q != op.p ==> Untouched(s.mem, Do(s, op, data).mem, s.procs[q].dir)
  {
    hide MemOk, Layout, Untouched, Growproc, Growstack, Fork, Reap, FreeSet, Owned, Sole, NoStray;
    ProcAt(s, op.p);
    match op
    case Grow(p, n) =>
      GrowprocKeepsLayout(s.mem, s.procs[p], n);
      var r := Growproc(s.mem, s.procs[p], n);
      OwnChangeKeeps(s, p, r.0, r.1);
    case Stack(p) =>
      GrowstackKeepsLayout(s.mem, s.procs[p]);
      var r := Growstack(s.mem, s.procs[p]);
      OwnChangeKeeps(s, p, r.0, r.1);
    case Spawn(p, child) =>
      if ForkLoses(|s.mem.free|) { SpawnLoses(s, p, child, data); } else { SpawnKeeps(s, p, child, data); }
      forall q | q in s.procs && q != p ensures Untouched(s.mem, Do(s, op, data).mem, s.procs[q].dir) {
        ProcAt(s, q);
      }
    case Collect(p) =>
      CollectKeeps(s, p);
  }

  // ----- runs

  /** A run of harmless calls from one state to another. */
  ghost predicate Runs(s: Sys, ops: seq<Op>, t: Sys, data: nat)
    requires DataOk(data)
    decreases ops
  {
    if ops == [] then s == t
    else Possible(s, ops[0]) && Harmless(s, ops[0]) && Runs(Do(s, ops[0], data), ops[1..], t, data)
  }

  /** Over every run, every process keeps its layout and every frame is free or has one owner. */
  lemma {:induction false} RunKeepsLayout(s: Sys, ops: seq<Op>, t: Sys, data: nat)
    requires DataOk(data) && Inv(s) && Runs(s, ops, t, data)
    ensures Inv(t)
    decreases ops
  {
    hide Inv, Do, Possible, Harmless;
    if ops != [] {
      DoKeepsExactly(s, ops[0], data);
      RunKeepsLayout(Do(s, ops[0], data), ops[1..], t, data);
    }
  }

  /** Nothing other processes do changes a byte, or the place, of a process's own pages. */
  lemma {:induction false} RunIsolates(s: Sys, ops: seq<Op>, t: Sys, data: nat, q: nat)
    requires DataOk(data) && Inv(s) && Runs(s, ops, t, data) && q in s.procs
    requires forall i :: 0 <= i < |ops| ==> ops[i].p != q
    ensures q in t.procs && t.procs[q] == s.procs[q] && Untouched(s.mem, t.mem, s.procs[q].dir)
    decreases ops
  {
    hide Inv, Untouched, Growproc, Growstack, Fork, Reap, Harmless;
    if ops == [] {
      assert Untouched(s.mem, s.mem, s.procs[q].dir) by { ProcAt(s, q); UntouchedNone(s.mem, s.procs[q].dir); }
    } else {
      var u := Do(s, ops[0], data);
      assert ops[0].p != q;
      DoKeepsExactly(s, ops[0], data);
      assert q in u.procs && u.procs[q] == s.procs[q];
      assert forall i :: 0 <= i < |ops[1..]| ==> ops[1..][i] == ops[i + 1];
      RunIsolates(u, ops[1..], t, data, q);
      UntouchedTwice(s.mem, u.mem, t.mem, s.procs[q].dir);
    }
  }

  // ----- the kernel's own pages

  /** Every directory maps the kernel's pages as it should, and user pages for the user. */
  ghost predicate KernelMapped(s: Sys, data: nat) { forall d :: d in s.mem.spaces ==> Maps(s.mem, d, data) }

  lemma UserOnlyMapped(s: Sys, t: Sys, d: nat, data: nat)
    requires KernelMapped(s, data) && UserOnly(s.mem, t.mem, d)
    ensures KernelMapped(t, data)
  {
    hide Maps;
    forall e | e in t.mem.spaces ensures Maps(t.mem, e, data) {
      SameDirs(s.mem, t.mem, d);
      UserOnlyKeeps(s.mem, t.mem, d, e, data);
    }
  }

  lemma SameDirs(m: Mem, r: Mem, d: nat)
    requires UserOnly(m, r, d)
    ensures r.spaces.Keys == m.spaces.Keys
  {}

  lemma SameMaps(m: Mem, r: Mem, d: nat, data: nat)
    requires Maps(m, d, data) && d in r.spaces && r.spaces[d] == m.spaces[d]
    ensures Maps(r, d, data)
  {}

  /** Every call but a fork that loses frames keeps the kernel's pages mapped in every
      directory, the child's included. */
  lemma DoKeepsKernel(s: Sys, op: Op, data: nat)
    requires Inv(s) && KernelMapped(s, data) && DataOk(data) && Possible(s, op)
    requires op.Spawn? ==> !ForkLoses(|s.mem.free|)
    ensures KernelMapped(Do(s, op, data), data)
  {
    hide MemOk, Layout, Untouched, Growproc, Growstack, Fork, Reap, FreeSet, Owned, Sole, NoStray, Maps, UserOnly, SamePages, KernelMapped;
    ProcAt(s, op.p);
    LayoutShape(s.mem, s.procs[op.p]);
    match op
    case Grow(p, n) =>
      GrowprocOnly(s.mem, s.procs[p], n);
      UserOnlyMapped(s, Do(s, op, data), s.procs[p].dir, data);
    case Stack(p) =>
      GrowstackOnly(s.mem, s.procs[p]);
      UserOnlyMapped(s, Do(s, op, data), s.procs[p].dir, data);
    case Spawn(p, child) =>
      ForkCopies(s.mem, s.procs[p], data);
      var (r, c) := Fork(s.mem, s.procs[p], data);
      if c.Child? { ForkMaps(s.mem, s.procs[p], data); }
      SpawnMapped(s, Do(s, op, data), c, data);
    case Collect(p) =>
      ReapReturns(s.mem, s.procs[p]);
      CollectMapped(s, Do(s, op, data), data);
  }

  lemma LayoutShape(m: Mem, im: Image)
    requires Layout(m, im)
    ensures Shape(im) && im.dir in m.spaces
  {}

  lemma SpawnMapped(s: Sys, t: Sys, c: Child, data: nat)
    requires KernelMapped(s, data) && AllUntouched(s.mem, t.mem)
    requires c.Child? ==> t.mem.spaces.Keys == s.mem.spaces.Keys + {c.im.dir} && Maps(t.mem, c.im.dir, data)
    requires c.NoChild? ==> t.mem.spaces == s.mem.spaces
    ensures KernelMapped(t, data)
  {
    hide Maps;
    forall d | d in t.mem.spaces ensures Maps(t.mem, d, data) {
      if d in s.mem.spaces {
        UntouchedSame(s.mem, t.mem, d);
        SameMaps(s.mem, t.mem, d, data);
      }
    }
  }

  lemma CollectMapped(s: Sys, t: Sys, data: nat)
    requires KernelMapped(s, data) && forall d :: d in t.mem.spaces ==> d in s.mem.spaces && t.mem.spaces[d] == s.mem.spaces[d]
    ensures KernelMapped(t, data)
  {
    hide Maps;
    forall d | d in t.mem.spaces ensures Maps(t.mem, d, data) {
      SameMaps(s.mem, t.mem, d, data);
    }
  }

  /** Over every run of harmless calls, every directory maps exactly the kernel's pages behind
      the user's, each at the frame of its own number and out of the user's reach, the kernel's
      text read-only; and every user page is the user's to read and write. */
  lemma {:induction false} RunKeepsKernel(s: Sys, ops: seq<Op>, t: Sys, data: nat)
    requires DataOk(data) && Inv(s) && KernelMapped(s, data) && Runs(s, ops, t, data)
    ensures forall d, v: nat :: d in t.mem.spaces ==>
              && (v in t.mem.spaces[d].ptes && v >= 160 <==> 160 <= v < 4096 || 0xF_E000 <= v < 0x10_0000)
              && (v in t.mem.spaces[d].ptes && v >= 160 ==>
                    t.mem.spaces[d].ptes[v] == Pte(v, false, !(256 <= v < data)))
              && (v in t.mem.spaces[d].ptes && v < 160 ==> t.mem.spaces[d].ptes[v].user && t.mem.spaces[d].ptes[v].writable)
    decreases ops
  {
    hide Inv, Do, Possible, Harmless, KernelMapped;
    if ops == [] {
      MappedMeans(t, data);
    } else {
      DoKeepsExactly(s, ops[0], data);
      NoLoss(s, ops[0]);
      DoKeepsKernel(s, ops[0], data);
      RunKeepsKernel(Do(s, ops[0], data), ops[1..], t, data);
    }
  }

  lemma NoLoss(s: Sys, op: Op)
    requires Possible(s, op) && Harmless(s, op)
    ensures op.Spawn? ==> !ForkLoses(|s.mem.free|)
  {}

  lemma MappedMeans(t: Sys, data: nat)
    requires KernelMapped(t, data)
    ensures forall d, v: nat :: d in t.mem.spaces ==>
              && (v in t.mem.spaces[d].ptes && v >= 160 <==> 160 <= v < 4096 || 0xF_E000 <= v < 0x10_0000)
              && (v in t.mem.spaces[d].ptes && v >= 160 ==>
                    t.mem.spaces[d].ptes[v] == Pte(v, false, !(256 <= v < data)))
              && (v in t.mem.spaces[d].ptes && v < 160 ==> t.mem.spaces[d].ptes[v].user && t.mem.spaces[d].ptes[v].writable)
  {
    forall d, v: nat | d in t.mem.spaces && (v in t.mem.spaces[d].ptes || KernelPage(v))
      ensures v in t.mem.spaces[d].ptes && EntryRight(v, t.mem.spaces[d].ptes[v], data)
    {
      assert Maps(t.mem, d, data);
    }
  }

  // ----- where runs start

  /** kinit: every frame behind the kernel is freed, from the lowest up. */
  function Kinit(low: nat): (m: Mem)
    requires low <= FRAMES
  {
    Mem(low, seq(FRAMES - low, i requires 0 <= i => FRAMES - 1 - i), map[], map[], map[])
  }

  lemma KinitOk(low: nat)
    requires low <= FRAMES
    ensures MemOk(Kinit(low)) && forall f :: f in Kinit(low).free <==> low <= f < FRAMES
  {
    var m := Kinit(low);
    forall f | low <= f < FRAMES ensures f in m.free {
      assert m.free[FRAMES - 1 - f] == f;
    }
  }

  /** userinit: a kernel stack, a directory, and one page of code at 0x2000; no stack yet. */
  function Userinit(m: Mem, code: Bytes, data: nat): (r: (Mem, Child))
    requires DataOk(data)
  {
    if m.free == [] then (m, NoChild) else
      var s := Setupkvm(Take(m, Kernel), data);
      if s.1.Null? || s.0.free == [] then (s.0, NoChild)
      else (AddPage(s.0, s.1.frame, 2, code), Child(Image(s.1.frame, BASE + PGSIZE, 0, m.free[0])))
  }

  /** The memory at boot: the free list, then the kernel's own directory. */
  ghost predicate Booted(m: Mem, kpgdir: nat) {
    MemOk(m) && m.spaces.Keys == {kpgdir} && forall f :: !IsUsed(m, f, Kernel)
  }

  /** The first process comes into being exactly when fifteen frames are free, and starts with
      the layout, holding its code, and no frame unowned. */
  lemma UserinitLayout(m: Mem, kpgdir: nat, code: Bytes, data: nat)
    requires Booted(m, kpgdir) && DataOk(data) && |code| == PGSIZE
    ensures var (r, c) := Userinit(m, code, data);
            && (c.Child? <==> |m.free| >= DIRFRAMES + 2)
            && (c.Child? ==> && Inv(Sys(r, kpgdir, map[0 := c.im])) && PageBytes(r, c.im.dir, 2) == code
                             && c.im.sz == BASE + PGSIZE && c.im.stack == 0 && |r.free| == |m.free| - (DIRFRAMES + 2))
  {
    hide MemOk, Untouched, Setupkvm, AddPage, Take, Sole, KeptPage, NoStray, FreeSet;
    if m.free != [] {
      TakeKernel(m);
      TakenFree(m);
      SetupkvmBuilds(Take(m, Kernel), data);
      var c := Userinit(m, code, data).1;
      if c.Child? {
        var s := Setupkvm(Take(m, Kernel), data).0;
        var r := AddPage(s, c.im.dir, 2, code);
        assert 2 !in s.spaces[c.im.dir].ptes;
        AddPageKeeps(s, c.im.dir, 2, code);
        AddPageEffect(s, c.im.dir, 2, code);
        SoleGives(s, r, c.im.dir);
        UserPages(r, c.im);
        FirstStray(r, kpgdir, c.im);
      }
    }
  }

  /** The first process's directory maps the kernel too, as the kernel's own does. */
  lemma UserinitMaps(m: Mem, kpgdir: nat, code: Bytes, data: nat)
    requires Booted(m, kpgdir) && DataOk(data) && |code| == PGSIZE && Userinit(m, code, data).1.Child? && Maps(m, kpgdir, data)
    ensures var (r, c) := Userinit(m, code, data); KernelMapped(Sys(r, kpgdir, map[0 := c.im]), data)
  {
    hide Setupkvm, Maps, UserOnly, AddPage;
    SetupkvmMaps(Take(m, Kernel), data);
    var (s, p) := Setupkvm(Take(m, Kernel), data);
    AddPageOnly(s, p.frame, 2, code);
    var r := AddPage(s, p.frame, 2, code);
    SameDirs(s, r, p.frame);
    forall d | d in r.spaces ensures Maps(r, d, data) {
      if d != p.frame {
        assert d == kpgdir;
        SameMaps(m, s, d, data);
      }
      UserOnlyKeeps(s, r, p.frame, d, data);
    }
  }

  lemma FirstStray(r: Mem, kpgdir: nat, im: Image)
    requires r.spaces.Keys == {kpgdir, im.dir} && forall f :: f != im.kstack ==> !IsUsed(r, f, Kernel)
    ensures NoStray(Sys(r, kpgdir, map[0 := im]))
  {
    var s := Sys(r, kpgdir, map[0 := im]);
    assert HasDir(s, 0, im.dir) && HasStack(s, 0, im.kstack);
  }

  lemma UserPages(r: Mem, im: Image)
    requires im.sz == BASE + PGSIZE && im.stack == 0 && Ready(r, im.dir)
    requires forall w :: w in r.spaces[im.dir].ptes ==> w >= UPAGES || w == 2
    requires 2 in r.spaces[im.dir].ptes
    ensures Layout(r, im)
  {}

  /** From kinit through the kernel's directory to the first process: with enough frames, a
      state to start runs from, with a known number of free frames. */
  lemma Boot(low: nat, code: Bytes, data: nat) returns (s: Sys)
    requires low + 2 * DIRFRAMES + 2 <= FRAMES && DataOk(data) && |code| == PGSIZE
    ensures Inv(s) && 0 in s.procs && s.procs[0].sz == BASE + PGSIZE && s.procs[0].stack == 0
    ensures |s.mem.free| == FRAMES - low - (2 * DIRFRAMES + 2) && 1 !in s.procs && KernelMapped(s, data)
  {
    hide MemOk, Untouched, Setupkvm, Userinit, FreeSet, Maps, KernelMapped;
    KinitOk(low);
    var m := Kinit(low);
    SetupkvmBuilds(m, data);
    var (k, p) := Setupkvm(m, data);
    SetupkvmMaps(m, data);
    assert Booted(k, p.frame);
    UserinitLayout(k, p.frame, code, data);
    UserinitMaps(k, p.frame, code, data);
    var (r, c) := Userinit(k, code, data);
    s := Sys(r, p.frame, map[0 := c.im]);
  }

  // ----- the harm is real

  /** A reachable state with two free frames, in which fork fails and one of them is lost. */
  lemma ForkLosesAFrame(data: nat) returns (s: Sys)
    requires DataOk(data)
    ensures Inv(s) && |s.mem.free| == 2 && Possible(s, Spawn(0, 1))
    ensures var t := Do(s, Spawn(0, 1), data); !Inv(t) && t.procs == s.procs && |FreeSet(t.mem)| == 1
  {
    hide Inv, FreeSet;
    s := Boot(FRAMES - 2 * DIRFRAMES - 4, Fill(0), data);
    SpawnLoses(s, 0, 1, data);
  }

  /** A reachable state in which growproc(-0x2000) succeeds and leaves a size below 0x2000,
      and growproc(-0x3000) fails after freeing the program's only page. */
  lemma GrowprocLosesTheLayout(data: nat) returns (s: Sys)
    requires DataOk(data)
    ensures Inv(s) && 0 in s.procs && s.procs[0].dir in s.mem.spaces
    ensures var (r, q, ok) := Growproc(s.mem, s.procs[0], -0x2000); ok && q.sz == 0x1000 && !Layout(r, q)
    ensures var (r, q, ok) := Growproc(s.mem, s.procs[0], -0x3000); !ok && q == s.procs[0] && !Layout(r, q)
  {
    hide MemOk, Layout, NoStray;
    s := Boot(0, Fill(0), data);
    ProcAt(s, 0);
    GrowprocDown(s.mem, s.procs[0], -0x2000);
    GrowprocDown(s.mem, s.procs[0], -0x3000);
  }
}
