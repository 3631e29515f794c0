/** The virtual memory code over the machine's frames. */
module Vm {
  import opened Basics
  import opened VmSpec
  import opened VmRange
  import opened VmCopy
  import opened VmLayout
  import opened VmRuns
  import opened VmKernel
  import opened VmAccess

  lemma OneEntry(m: Mem, d: nat, v: nat, pte: Pte)
    requires Ready(m, d) && v < UPAGES && v !in m.spaces[d].ptes
    ensures MapRange(m, d, v, v, pte) == (AddEntry(m, d, v, pte), Done)
  {}

  lemma AddPageIs(m: Mem, d: nat, v: nat, bytes: Bytes)
    requires m.free != [] && d in m.spaces
    ensures AddPage(m, d, v, bytes)
         == AddEntry(Take(m, Page(d, v)).(data := m.data[m.free[0] := bytes]), d, v, Pte(m.free[0], true, true))
  {}

  class Machine {
    const low: nat
    var free: seq<nat>
    var spaces: map<nat, Space>
    var data: map<nat, Bytes>
    ghost var use: map<nat, Use>

    ghost function Now(): Mem
      reads this
    {
      Mem(low, free, spaces, data, use)
    }

    /** kinit: free every frame behind the kernel, the lowest first. */
    constructor (first: nat)
      requires first <= FRAMES
      ensures MemOk(Now()) && low == first && free == Kinit(first).free && spaces == map[] && use == map[]
    {
      low, free, spaces, data, use := first, [], map[], map[], map[];
      new;
      var p := low;
      while p < FRAMES
        invariant first <= p <= FRAMES && low == first && free == seq(p - first, i requires 0 <= i => p - 1 - i)
        invariant spaces == map[] && use == map[]
      {
        data := data[p := Fill(1)];
        free := [p] + free;
        p := p + 1;
      }
      KinitOk(first);
      FreshOk(Kinit(first), Now());
    }

    /** kfree; it panics on anything but a managed frame. */
    method Kfree(f: nat)
      requires low <= f < FRAMES
      modifies `free, `data, `use
      ensures Now() == Give(old(Now()), f)
      ensures free == [f] + old(free) && f in data && |data[f]| == 4096 && forall i :: 0 <= i < 4096 ==> data[f][i] == 1
      ensures forall g :: g != f ==> (g in data <==> g in old(data)) && (g in data ==> data[g] == old(data)[g])
    {
      data := data[f := Fill(1)];
      free := [f] + free;
      use := use - {f};
    }

    method Kalloc(ghost u: Use) returns (p: Ptr)
      modifies `free, `use
      ensures p == (if old(free) == [] then Null else At(old(free)[0]))
      ensures Now() == if old(free) == [] then old(Now()) else Take(old(Now()), u)
    {
      if free == [] {
        return Null;
      }
      p := At(free[0]);
      use := use[free[0] := u];
      free := free[1..];
    }

    /** walkpgdir with create, for page v of directory d. */
    method Walkpgdir(d: nat, v: nat) returns (ok: bool)
      requires d in spaces
      modifies `free, `use, `spaces
      ensures (Now(), ok) == Walk(old(Now()), d, v)
    {
      var x := v / NENTRIES;
      if x in spaces[d].tables {
        return true;
      }
      var p := Kalloc(Table(d, x));
      if p.Null? {
        return false;
      }
      spaces := spaces[d := spaces[d].(tables := spaces[d].tables[x := p.frame])];
      ok := true;
    }

    method Mappages(d: nat, v: nat, last: nat, pte: Pte) returns (r: MapResult)
      requires d in spaces && v <= last
      modifies `free, `use, `spaces
      ensures (Now(), r) == MapRange(old(Now()), d, v, last, pte)
      ensures r == Done ==> OnFrames(old(Now()), Now(), d, v, last, pte)
      ensures r == Done ==> forall w: nat :: v <= w <= last ==> w !in old(spaces)[d].ptes
      ensures r == Remap ==> exists w: nat :: v <= w <= last && w in old(spaces)[d].ptes
    {
      hide Walk, OnFrames;
      MapRangeOutcome(Now(), d, v, last, pte);
      assert forall w: nat :: EntryAt(Now(), d, w) == Absent <==> w !in spaces[d].ptes;
      var a, e := v, pte;
      while true
        invariant d in spaces && v <= a <= last
        invariant MapRange(old(Now()), d, v, last, pte) == MapRange(Now(), d, a, last, e)
        decreases last - a
      {
        var ok := Walkpgdir(d, a);
        if !ok {
          return NoMemory;
        }
        if a in spaces[d].ptes {
          return Remap;
        }
        spaces := spaces[d := spaces[d].(ptes := spaces[d].ptes[a := e])];
        if a == last {
          RangeMapped(old(Now()), d, v, last, pte);
          return Done;
        }
        a := a + 1;
        e := e.(frame := e.frame + 1);
      }
    }

    method Setupkvm(kdata: nat) returns (p: Ptr)
      requires DataOk(kdata)
      modifies `free, `use, `spaces
      ensures (Now(), p) == VmCopy.Setupkvm(old(Now()), kdata)
      ensures p.At? ==> Maps(Now(), p.frame, kdata)
    {
      hide MapRange, Maps, EntryAt;
      p := Kalloc(Dir);
      if p.Null? {
        return;
      }
      var d := p.frame;
      spaces := spaces[d := Space(map[], map[])];
      var ks := KernelMap(kdata);
      ghost var start := Now();
      var k := 0;
      while k < |ks|
        invariant 0 <= k <= |ks| && d in spaces && (forall i :: 0 <= i < |ks| ==> ks[i].first < ks[i].end)
        invariant MapKernel(start, d, ks) == MapKernel(Now(), d, ks[k..])
      {
        assert ks[k..][0] == ks[k] && ks[k..][1..] == ks[k + 1..];
        var r := Mappages(d, ks[k].first, ks[k].end - 1, Pte(ks[k].first, false, ks[k].writable));
        if r != Done {
          return Null;
        }
        k := k + 1;
      }
      SetupkvmMaps(old(Now()), kdata);
    }

    /** The last two steps for a new user page: fill its frame and enter it. */
    method MapPage(d: nat, v: nat, f: nat, bytes: Bytes)
      requires Ready(Now(), d) && v < UPAGES && v !in spaces[d].ptes
      modifies `free, `use, `spaces, `data
      ensures Now() == AddEntry(old(Now()).(data := old(data)[f := bytes]), d, v, Pte(f, true, true))
    {
      hide MapRange;
      data := data[f := bytes];
      OneEntry(Now(), d, v, Pte(f, true, true));
      var _ := Mappages(d, v, v, Pte(f, true, true));
    }

    /** allocuvm; mapping a page twice would be a panic. */
    method Allocuvm(d: nat, oldsz: nat, newsz: nat) returns (ret: nat)
      requires MemOk(Now()) && Ready(Now(), d) && (newsz <= USERTOP ==> Unmapped(Now(), d, Up(oldsz), Up(newsz)))
      modifies `free, `use, `spaces, `data
      ensures (Now(), ret) == VmRange.Allocuvm(old(Now()), d, oldsz, newsz)
    {
      hide MemOk, MapRange, Unmapped, Sole, KeptPage, Content, AddEntry, AddPage;
      if newsz > USERTOP {
        return 0;
      }
      if newsz < oldsz {
        return oldsz;
      }
      var v, end := Up(oldsz), Up(newsz);
      UpTop(newsz);
      MoreUp(oldsz, newsz);
      while v < end
        invariant Up(oldsz) <= v <= end && MemOk(Now()) && Ready(Now(), d) && end == Up(newsz) <= UPAGES && Unmapped(Now(), d, v, end)
        invariant AddPages(old(Now()), d, Up(oldsz), end, Zeros) == AddPages(Now(), d, v, end, Zeros)
        decreases end - v
      {
        ghost var before := Now();
        var p := Kalloc(Page(d, v));
        if p.Null? {
          SmallerUp(oldsz, newsz);
          var _ := Deallocuvm(d, newsz, oldsz);
          return 0;
        }
        AddPageNext(before, d, v, end, Zeros);
        ZeroContent(before, v);
        MapPage(d, v, p.frame, Fill(0));
        AddPageIs(before, d, v, Fill(0));
        v := v + 1;
      }
      ret := newsz;
    }

    method Deallocuvm(d: nat, oldsz: nat, newsz: nat) returns (ret: nat)
      requires MemOk(Now()) && d in spaces && oldsz <= USERTOP
      modifies `free, `use, `spaces, `data
      ensures (Now(), ret) == VmRange.Deallocuvm(old(Now()), d, oldsz, newsz)
    {
      if newsz >= oldsz {
        return oldsz;
      }
      UpTop(oldsz);
      DropRange(d, Up(newsz), Up(oldsz));
      ret := newsz;
    }

    /** The loop of deallocuvm. */
    method DropRange(d: nat, from: nat, end: nat)
      requires MemOk(Now()) && d in spaces && end <= UPAGES
      modifies `free, `use, `spaces, `data
      ensures Now() == DropPages(old(Now()), d, from, end)
    {
      hide MemOk, Sole, KeptPage;
      var v := from;
      while v < end
        invariant from <= v && MemOk(Now()) && d in spaces
        invariant DropPages(old(Now()), d, from, end) == DropPages(Now(), d, v, end)
        decreases end - v
      {
        if v in spaces[d].ptes {
          PageFrame(Now(), d, v);
          DropPageKeeps(Now(), d, v);
          ghost var before := Now();
          Kfree(spaces[d].ptes[v].frame);
          spaces := spaces[d := spaces[d].(ptes := spaces[d].ptes - {v})];
          assert Now() == DropPage(before, d, v);
        }
        v := v + 1;
      }
    }

    method Freevm(d: nat)
      requires MemOk(Now()) && d in spaces
      modifies `free, `use, `spaces, `data
      ensures Now() == VmRange.Freevm(old(Now()), d)
    {
      hide MemOk, Sole, KeptPage, DropPages, Emptied, Shrunk;
      DropPagesShrink(Now(), d, 0, UPAGES);
      DropRange(d, 0, UPAGES);
      ghost var pages := Now();
      StartEmptied(old(Now()), pages, d);
      var x := 0;
      while x < NENTRIES
        invariant 0 <= x <= NENTRIES && d in spaces && Emptied(Now(), d, x)
        invariant DropTables(pages, d, 0) == DropTables(Now(), d, x)
        decreases NENTRIES - x
      {
        ghost var before := Now();
        if x in spaces[d].tables {
          TableFrame(before, d, x);
          DropTableEffect(before, d, x);
          var sp := spaces[d];
          Kfree(sp.tables[x]);
          spaces := spaces[d := Space(sp.tables - {x}, map v | v in sp.ptes && v / NENTRIES != x :: sp.ptes[v])];
          assert Now() == DropTable(before, d, x);
        } else {
          EmptiedMore(before, d, x);
        }
        x := x + 1;
      }
      DirFrame(Now(), d, x);
      Kfree(d);
      spaces := spaces - {d};
    }

    /** One of the two loops of copyuvm: whether every page was copied. */
    method CopyRange(p: nat, d: nat, from: nat, end: nat) returns (ok: bool)
      requires MemOk(Now()) && Ready(Now(), d) && end <= UPAGES && Unmapped(Now(), d, from, end) && SourceOk(Now(), d, CopyOf(p), from, end)
      modifies `free, `use, `spaces, `data
      ensures (Now(), ok) == AddPages(old(Now()), d, from, end, CopyOf(p))
    {
      hide MemOk, MapRange, Unmapped, Sole, KeptPage, SourceOk, AddEntry, AddPage;
      var v := from;
      while v < end
        invariant from <= v && MemOk(Now()) && Ready(Now(), d) && Unmapped(Now(), d, v, end) && SourceOk(Now(), d, CopyOf(p), v, end)
        invariant AddPages(old(Now()), d, from, end, CopyOf(p)) == AddPages(Now(), d, v, end, CopyOf(p))
        decreases end - v
      {
        ghost var before := Now();
        SourceFrame(before, d, p, v, end);
        var page := data[spaces[p].ptes[v].frame];
        var q := Kalloc(Page(d, v));
        if q.Null? {
          return false;
        }
        AddPageNext(before, d, v, end, CopyOf(p));
        MapPage(d, v, q.frame, page);
        AddPageIs(before, d, v, page);
        v := v + 1;
      }
      ok := true;
    }

    /** copyuvm; a page of the heap or the stack that is missing would be a panic. */
    method Copyuvm(p: nat, sz: nat, stack: nat, kdata: nat) returns (q: Ptr)
      requires MemOk(Now()) && DataOk(kdata) && p in spaces && stack <= UPAGES
      requires HeapEnd(sz) <= UPAGES - stack || HeapEnd(sz) == 2
      requires forall v: nat :: v < UPAGES && InLayout(v, sz, stack) ==> Mapped(Now(), p, v)
      modifies `free, `use, `spaces, `data
      ensures (Now(), q) == VmCopy.Copyuvm(old(Now()), p, sz, stack, kdata)
    {
      hide MemOk, Born, Untouched, Sole, KeptPage, AddPages, VmCopy.Setupkvm, VmRange.Freevm, PageBytes, Up, HeapEnd, Unmapped, SourceOk;
      ghost var m := Now();
      SetupkvmBuilds(m, kdata);
      q := Setupkvm(kdata);
      if q.Null? {
        return;
      }
      var d := q.frame;
      ghost var s := Now();
      SetupBorn(m, kdata);
      HeapReady(m, s, p, d, sz, stack);
      SameHeap(s, d, sz, p);
      var ok := CopyRange(p, d, 2, if Up(sz) < 2 then 2 else Up(sz));
      HeapEndIs(sz);
      ghost var a := Now();
      BornOk(m, s, a, p, d, sz, stack);
      if !ok {
        Freevm(d);
        return Null;
      }
      ok := CopyRange(p, d, UPAGES - stack, UPAGES);
      if !ok {
        StackFailed(m, a, p, d, stack);
        Freevm(d);
        return Null;
      }
    }

    /** growproc for the process with this memory. */
    method Growproc(im: Image, n: int) returns (q: Image, ok: bool)
      requires MemOk(Now()) && Layout(Now(), im) && Int32(n)
      modifies `free, `use, `spaces, `data
      ensures im.dir in old(spaces) && (Now(), q, ok) == VmLayout.Growproc(old(Now()), im, n)
      ensures MemOk(Now()) && (Layout(Now(), q) <==> !ShrinksTooFar(im, n))
    {
      hide MemOk, Layout, Unmapped, Sole;
      GrowprocKeepsLayout(Now(), im, n);
      GrowRoom(Now(), im, n);
      q, ok := im, false;
      if Wrap(im.sz + n + GAP) > Wrap(Bottom(im)) {
        return;
      }
      var sz := im.sz;
      if n > 0 {
        sz := Allocuvm(im.dir, im.sz, Wrap(im.sz + n));
        if sz == 0 {
          return;
        }
      } else if n < 0 {
        sz := Deallocuvm(im.dir, im.sz, Wrap(im.sz + n));
        if sz == 0 {
          return;
        }
      }
      q, ok := im.(sz := sz), true;
    }

    method Growstack(im: Image) returns (q: Image, ok: bool)
      requires MemOk(Now()) && Layout(Now(), im)
      modifies `free, `use, `spaces, `data
      ensures im.dir in old(spaces) && (Now(), q, ok) == VmLayout.Growstack(old(Now()), im)
      ensures MemOk(Now()) && Layout(Now(), q)
    {
      hide MemOk, Layout, Unmapped, Sole, Grown, FreeSet;
      GrowstackKeepsLayout(Now(), im);
      StackRoom(Now(), im);
      q, ok := im, false;
      if Wrap(Bottom(im) - PGSIZE - im.sz) < GAP {
        return;
      }
      var sz := Allocuvm(im.dir, Wrap(Bottom(im) - PGSIZE), Wrap(Bottom(im)));
      if sz == 0 {
        return;
      }
      q, ok := im.(stack := im.stack + 1), true;
    }

    /** fork's part of the work on memory. */
    method Fork(im: Image, kdata: nat) returns (c: Child)
      requires MemOk(Now()) && Layout(Now(), im) && DataOk(kdata)
      modifies `free, `use, `spaces, `data
      ensures im.stack <= UPAGES && (Now(), c) == VmLayout.Fork(old(Now()), im, kdata) && Forked(old(Now()), im, Now(), c)
      ensures c.Child? ==> Maps(Now(), c.im.dir, kdata)
    {
      hide Maps, MemOk, Layout, AllUntouched, VmCopy.Copyuvm, Forked, HeapEnd, VmCopy.Setupkvm, FreeSet;
      LayoutDir(Now(), im);
      ForkCopies(Now(), im, kdata);
      var k := Kalloc(Kernel);
      if k.Null? {
        return NoChild;
      }
      TakeKernel(old(Now()));
      ghost var t := Now();
      KeptLow(old(Now()), im, kdata);
      var q := Copyuvm(im.dir, im.sz, im.stack, kdata);
      match q
      case Null =>
        Kfree(k.frame);
        c := NoChild;
      case At(d) =>
        c := Child(Image(d, im.sz, im.stack, k.frame));
        LayoutShape(old(Now()), im);
        ForkMaps(old(Now()), im, kdata);
    }

    /** fetchstr: the length of the string at addr, or -1. */
    method Fetchstr(im: Image, addr: nat) returns (len: int)
      requires MemOk(Now()) && Layout(Now(), im) && addr < U32
      ensures len >= 0 <==> FetchstrAccepts(im, addr) && FirstNul(Now(), im.dir, addr, StringEnd(im, addr)) >= 0
      ensures len >= 0 ==> len == FirstNul(Now(), im.dir, addr, StringEnd(im, addr)) - addr
    {
      hide MemOk, Layout;
      if addr >= USERTOP || addr < BASE {
        return -1;
      }
      if addr >= im.sz && addr < Wrap(Bottom(im)) {
        return -1;
      }
      var ep := if addr < im.sz then im.sz else USERTOP;
      var s := addr;
      while s < ep
        invariant addr <= s && ep == StringEnd(im, addr) && (s <= ep || s == addr)
        invariant FirstNul(Now(), im.dir, addr, ep) == FirstNul(Now(), im.dir, s, ep)
        decreases ep - s
      {
        FetchstrIsMapped(Now(), im, addr, s);
        ByteIs(Now(), im.dir, s);
        if data[spaces[im.dir].ptes[s / PGSIZE].frame][s % PGSIZE] == 0 {
          return s - addr;
        }
        s := s + 1;
      }
      len := -1;
    }

    /** uva2ka: the frame of a user page, or null; without a page table, the entry it reads is
        at address zero. */
    method Uva2ka(d: nat, v: nat) returns (r: Looked)
      requires d in spaces
      ensures r.Fault? <==> !HasTable(spaces[d], v)
      ensures r.Frame? <==> HasTable(spaces[d], v) && UserPage(Now(), d, v)
      ensures r.Frame? ==> r.frame == spaces[d].ptes[v].frame
    {
      if v / NENTRIES !in spaces[d].tables {
        return Fault;
      }
      if v !in spaces[d].ptes {
        return NotUser;
      }
      if !spaces[d].ptes[v].user {
        return NotUser;
      }
      r := Frame(spaces[d].ptes[v].frame);
    }

    method Copyout(d: nat, va: nat, bytes: Bytes) returns (r: Outcome)
      requires MemOk(Now()) && d in spaces
      modifies `data
      ensures (Now(), r) == VmAccess.Copyout(old(Now()), d, va, bytes)
      ensures SameButData(old(Now()), Now(), d) && (r.Copied? <==> Reach(old(Now()), d, va, |bytes|) == |bytes|)
      ensures Written(old(Now()), Now(), d, va, bytes, Reach(old(Now()), d, va, |bytes|))
    {
      hide MemOk, SameButData, Splice, PageBytes, Written, Reach, UserPage, HasTable, Poke;
      CopyoutWrites(Now(), d, va, bytes);
      var (addr, rest) := (va, bytes);
      while rest != []
        invariant MemOk(Now()) && d in spaces && Now() == old(Now()).(data := data)
        invariant va <= addr && (rest != [] ==> addr + |rest| == va + |bytes|)
        invariant VmAccess.Copyout(old(Now()), d, va, bytes) == VmAccess.Copyout(Now(), d, addr, rest)
        decreases |rest|
      {
        var v := addr / PGSIZE;
        UserHasTable(Now(), d, v);
        var p := Uva2ka(d, v);
        if p.Fault? {
          StopsAt(Now(), d, v);
          return Faulted;
        }
        if p.NotUser? {
          StopsAt(Now(), d, v);
          return Refused;
        }
        var n := Chunk(addr, rest);
        Poked(Now(), d, addr, rest[..n]);
        data := data[p.frame := Splice(data[p.frame], addr % PGSIZE, rest[..n])];
        addr, rest := PGSIZE * (v + 1), rest[n..];
      }
      r := Copied;
    }
  }

  datatype Looked = Fault | NotUser | Frame(frame: nat)

  // ----- what the methods need of the specification

  lemma RangeMapped(m: Mem, d: nat, v: nat, last: nat, pte: Pte)
    requires d in m.spaces && v <= last && MapRange(m, d, v, last, pte).1 == Done
    ensures OnFrames(m, MapRange(m, d, v, last, pte).0, d, v, last, pte)
  {
    hide EntryAt, MapRange;
    var r := MapRange(m, d, v, last, pte).0;
    forall w: nat ensures EntryAt(r, d, w) == FrameEntry(m, d, v, last, pte, w) {
      MapRangeAt(m, d, v, last, pte, w);
    }
  }

  lemma FreshOk(k: Mem, m: Mem)
    requires MemOk(k) && m.low == k.low && m.free == k.free && m.spaces == map[] && m.use == map[] && k.use == map[]
    ensures MemOk(m)
  {
    SameFree(k, m);
  }

  lemma UpTop(size: nat)
    requires size <= USERTOP
    ensures Up(size) <= UPAGES
  {}

  lemma ZeroContent(m: Mem, v: nat)
    ensures Content(m, Zeros, v) == Fill(0)
  {}

  lemma StartEmptied(m: Mem, r: Mem, d: nat)
    requires MemOk(r) && Shrunk(m, r, d, 0, UPAGES)
    ensures d in r.spaces && Emptied(r, d, 0)
  {}

  lemma TableFrame(m: Mem, d: nat, x: nat)
    requires Emptied(m, d, x) && d in m.spaces && x in m.spaces[d].tables
    ensures Managed(m, m.spaces[d].tables[x])
  {
    DirAt(m, d);
    FrameAt(m, m.spaces[d].tables[x]);
  }

  lemma DirFrame(m: Mem, d: nat, x: nat)
    requires Emptied(m, d, x)
    ensures Managed(m, d)
  {
    DirAt(m, d);
    FrameAt(m, d);
  }

  lemma SourceFrame(m: Mem, d: nat, p: nat, v: nat, end: nat)
    requires MemOk(m) && SourceOk(m, d, CopyOf(p), v, end) && v < end <= UPAGES
    ensures Mapped(m, p, v) && m.spaces[p].ptes[v].frame in m.data
    ensures Content(m, CopyOf(p), v) == m.data[m.spaces[p].ptes[v].frame]
  {
    assert Mapped(m, p, v);
    PageFrame(m, p, v);
  }

  lemma HeapReady(m: Mem, s: Mem, p: nat, d: nat, sz: nat, stack: nat)
    requires Born(m, s, d) && NoUser(s, d) && p in m.spaces && stack <= UPAGES
    requires HeapEnd(sz) <= UPAGES - stack || HeapEnd(sz) == 2
    requires forall v: nat :: v < UPAGES && InLayout(v, sz, stack) ==> Mapped(m, p, v)
    ensures MemOk(s) && Unmapped(s, d, 2, HeapEnd(sz)) && SourceOk(s, d, CopyOf(p), 2, HeapEnd(sz)) && HeapEnd(sz) <= UPAGES
    ensures HeapEnd(sz) == if Up(sz) < 2 then 2 else Up(sz)
  {
    hide Up;
    NoUserUnmapped(s, d, 2, HeapEnd(sz));
    forall w | 2 <= w < HeapEnd(sz) ensures Mapped(s, p, w) {
      UntouchedPage(m, s, p, w);
    }
  }

  lemma HeapEndIs(sz: nat)
    ensures HeapEnd(sz) == if Up(sz) < 2 then 2 else Up(sz)
  {}

  /** After the heap's pages, everything is ready for the stack's. */
  lemma BornOk(m: Mem, s: Mem, a: Mem, p: nat, d: nat, sz: nat, stack: nat)
    requires MemOk(m) && Born(m, s, d) && Ready(s, d) && NoUser(s, d) && p in m.spaces && stack <= UPAGES
    requires HeapEnd(sz) <= UPAGES - stack || HeapEnd(sz) == 2
    requires forall v: nat :: v < UPAGES && InLayout(v, sz, stack) ==> Mapped(m, p, v)
    requires a == AddPages(s, d, 2, HeapEnd(sz), CopyOf(p)).0
    ensures Born(m, a, d) && MemOk(a) && Ready(a, d) && Unmapped(a, d, UPAGES - stack, UPAGES)
    ensures SourceOk(a, d, CopyOf(p), UPAGES - stack, UPAGES)
  {
    hide MemOk, Untouched, AddPages, KeptPage, PageBytes, Sole, SameKernel, Up, HeapEnd;
    NoUserUnmapped(s, d, 2, HeapEnd(sz));
    var k := CopyRun(m, s, p, d, 2, HeapEnd(sz));
    forall w | UPAGES - stack <= w < UPAGES ensures Mapped(a, p, w) && !Mapped(a, d, w) {
      UntouchedPage(m, a, p, w);
    }
  }

  lemma StackFailed(m: Mem, a: Mem, p: nat, d: nat, stack: nat)
    requires MemOk(m) && Born(m, a, d) && Ready(a, d) && p in m.spaces && stack <= UPAGES
    requires Unmapped(a, d, UPAGES - stack, UPAGES) && SourceOk(a, d, CopyOf(p), UPAGES - stack, UPAGES)
    ensures var r := AddPages(a, d, UPAGES - stack, UPAGES, CopyOf(p)).0; MemOk(r) && d in r.spaces
  {
    hide MemOk, Untouched, AddPages, KeptPage, PageBytes, Sole, SameKernel;
    BornDir(m, a, d);
    assert MemOk(a) by { BornMem(m, a, d); }
    var k := AddPagesGrow(a, d, UPAGES - stack, UPAGES, CopyOf(p));
  }

  lemma BornMem(m: Mem, a: Mem, d: nat)
    requires Born(m, a, d)
    ensures MemOk(a)
  {}

  lemma GrowRoom(m: Mem, im: Image, n: int)
    requires Layout(m, im) && Int32(n)
    ensures im.dir in m.spaces && Ready(m, im.dir) && im.sz <= USERTOP
    ensures n > 0 && Wrap(im.sz + n + GAP) <= Wrap(Bottom(im)) ==> Unmapped(m, im.dir, Up(im.sz), Up(Wrap(im.sz + n)))
  {
    hide Up;
    ShapeBounds(im);
    WrapIs(im.sz + n + GAP);
    WrapIs(im.sz + n);
    WrapIs(Bottom(im));
    if n > 0 && Wrap(im.sz + n + GAP) <= Wrap(Bottom(im)) {
      UpBound(im.sz + n, im.stack);
      FreeAbove(m, im, Up(im.sz), Up(im.sz + n));
    }
  }

  lemma StackRoom(m: Mem, im: Image)
    requires Layout(m, im)
    ensures im.dir in m.spaces && Ready(m, im.dir)
    ensures Unmapped(m, im.dir, Up(Wrap(Bottom(im) - PGSIZE)), Up(Wrap(Bottom(im))))
  {
    ShapeBounds(im);
    WrapIs(Bottom(im) - PGSIZE);
    WrapIs(Bottom(im));
    StackPages(im);
    hide Up;
    FreeAbove(m, im, UPAGES - im.stack - 1, UPAGES - im.stack);
  }

  /** The frame fork took for the kernel stack can be given back. */
  lemma KeptLow(m: Mem, im: Image, kdata: nat)
    requires MemOk(m) && m.free != []
    ensures Managed(m, m.free[0])
  {
    HeadIsFree(m);
  }

  lemma UserHasTable(m: Mem, d: nat, v: nat)
    requires MemOk(m) && d in m.spaces
    ensures UserPage(m, d, v) ==> HasTable(m.spaces[d], v) && Mapped(m, d, v)
  {
    DirAt(m, d);
    if UserPage(m, d, v) { assert EntryOk(m, d, v); }
  }

  lemma StopsAt(m: Mem, d: nat, v: nat)
    requires d in m.spaces
    ensures Stops(m, d, v) == if HasTable(m.spaces[d], v) then Refused else Faulted
  {}

  /** The frame that copyout writes to is there, and writing it is the specified step. */
  lemma Poked(m: Mem, d: nat, va: nat, bytes: Bytes)
    requires MemOk(m) && UserPage(m, d, va / PGSIZE) && Mapped(m, d, va / PGSIZE) && va % PGSIZE + |bytes| <= PGSIZE
    ensures var (r, f) := (Poke(m, d, va, bytes), m.spaces[d].ptes[va / PGSIZE].frame);
            && f in m.data && |m.data[f]| == PGSIZE
            && MemOk(r) && r == m.(data := m.data[f := Splice(m.data[f], va % PGSIZE, bytes)])
  {
    hide MemOk, SameButData;
    UserPageBelow(m, d, va / PGSIZE);
    PageFrame(m, d, va / PGSIZE);
    PokeKeeps(m, d, va, bytes);
    PokedOk(m, Poke(m, d, va, bytes), d);
  }

  lemma ByteIs(m: Mem, d: nat, x: nat)
    requires MemOk(m) && Mapped(m, d, x / PGSIZE) && x < USERTOP
    ensures var f := m.spaces[d].ptes[x / PGSIZE].frame;
            f in m.data && |m.data[f]| == PGSIZE && ByteAt(m, d, x) == m.data[f][x % PGSIZE]
  {
    PageFrame(m, d, x / PGSIZE);
  }
}
