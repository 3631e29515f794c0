/** The layout of user memory: a heap growing up from 0x2000, a stack growing down from
    USERTOP, and five pages between them, over all runs of the calls that change it. */
module VmLayout {
  import opened Basics
  import opened VmSpec
  import opened VmRange
  import opened VmCopy

  const BASE := 0x2000
  const GAP := 5 * PGSIZE

  /** What a process table entry says of the process's memory. */
  datatype Image = Image(dir: nat, sz: nat, stack: nat, kstack: nat)

  /** Unsigned 32-bit arithmetic. */
  function Wrap(x: int): nat { x % U32 }

  function Bottom(im: Image): int { USERTOP - PGSIZE * im.stack }

  predicate Shape(im: Image) { BASE <= im.sz && im.sz + GAP <= Bottom(im) }

  /** The gap is there, and exactly the heap's and the stack's pages are mapped. */
  ghost predicate Layout(m: Mem, im: Image) { Shape(im) && Ready(m, im.dir) && PagesAre(m, im.dir, im.sz, im.stack) }

  /** In addresses: the heap begins at 0x2000, the stack ends at 0xA0000, five pages lie between
      them, and a page is mapped exactly if it is one of the program's or the heap's or the stack's. */
  lemma LayoutSpelled(m: Mem, im: Image)
    ensures Layout(m, im) <==>
              && im.dir in m.spaces && 0 in m.spaces[im.dir].tables
              && 0x2000 <= im.sz && im.sz + 0x5000 <= 0xA_0000 - 0x1000 * im.stack
              && forall v: nat :: v < 160 ==>
                   (v in m.spaces[im.dir].ptes <==> (2 <= v && 0x1000 * v < im.sz) || 0xA_0000 - 0x1000 * im.stack <= 0x1000 * v)
  {
    if im.dir in m.spaces {
      forall v: nat | v < 160
        ensures InLayout(v, im.sz, im.stack) <==> (2 <= v && 0x1000 * v < im.sz) || 0xA_0000 - 0x1000 * im.stack <= 0x1000 * v
      {
        UpSpelled(im.sz, v);
      }
      assert forall v: nat :: Mapped(m, im.dir, v) <==> v in m.spaces[im.dir].ptes;
    }
  }

  lemma UpSpelled(sz: nat, v: nat)
    ensures v < Up(sz) <==> 0x1000 * v < sz
  {}

  // ----- growproc

  function Growproc(m: Mem, im: Image, n: int): (r: (Mem, Image, bool))
    requires im.dir in m.spaces
  {
    if Wrap(im.sz + n + GAP) > Wrap(Bottom(im)) then (m, im, false)
    else if n == 0 then (m, im, true)
    else
      var g := if n > 0 then Allocuvm(m, im.dir, im.sz, Wrap(im.sz + n)) else Deallocuvm(m, im.dir, im.sz, Wrap(im.sz + n));
      if g.1 == 0 then (g.0, im, false) else (g.0, im.(sz := g.1), true)
  }

  predicate Int32(n: int) { -0x8000_0000 <= n < 0x8000_0000 }

  /** Shrinking below the program's first page. */
  predicate ShrinksTooFar(im: Image, n: int) { n < 0 && (0 < im.sz + n < BASE || (im.sz + n == 0 && im.sz > BASE)) }

  lemma WrapIs(x: int)
    ensures 0 <= x < U32 ==> Wrap(x) == x
    ensures -U32 <= x < 0 ==> Wrap(x) == x + U32
  {}

  lemma ShapeBounds(im: Image)
    requires Shape(im)
    ensures im.stack < UPAGES - 6 && 2 <= Up(im.sz) <= UPAGES - im.stack - 5 && im.sz <= USERTOP && 0 <= Bottom(im) <= USERTOP
    ensures Bottom(im) == PGSIZE * (UPAGES - im.stack)
  {}

  lemma PagesAt(m: Mem, im: Image, v: nat)
    requires PagesAre(m, im.dir, im.sz, im.stack) && v < UPAGES
    ensures Mapped(m, im.dir, v) <==> InLayout(v, im.sz, im.stack)
  {}

  lemma ShapeDir(m: Mem, im: Image)
    requires Layout(m, im)
    ensures im.dir in m.spaces
  {}

  lemma FreeAbove(m: Mem, im: Image, v: nat, end: nat)
    requires PagesAre(m, im.dir, im.sz, im.stack) && Up(im.sz) <= v && end <= UPAGES - im.stack && 2 <= v
    ensures Unmapped(m, im.dir, v, end)
  {}

  lemma GrownSole(m: Mem, r: Mem, d: nat, v: nat, k: nat)
    requires Grown(m, r, d, v, k, Zeros)
    ensures Sole(m, r, d)
  {}

  lemma MoreUp(a: nat, b: nat)
    ensures a <= b ==> Up(a) <= Up(b)
  {}

  lemma GrownLayout(m: Mem, r: Mem, im: Image, sz: nat)
    requires Layout(m, im) && im.sz <= sz && sz + GAP <= Bottom(im) && Grown(m, r, im.dir, Up(im.sz), Up(sz), Zeros)
    ensures Layout(r, im.(sz := sz))
  {
    hide Sole, KeptPage;
    ShapeBounds(im);
    ShapeBounds(im.(sz := sz));
    MoreUp(im.sz, sz);
    MoreUp(sz, im.sz);
    forall v: nat | v < UPAGES ensures Mapped(r, im.dir, v) <==> InLayout(v, sz, im.stack) {
      PagesAt(m, im, v);
    }
  }

  lemma ShrunkLayout(m: Mem, r: Mem, im: Image, sz: nat)
    requires Layout(m, im) && BASE <= sz <= im.sz && Shrunk(m, r, im.dir, Up(sz), Up(im.sz))
    ensures Layout(r, im.(sz := sz))
  {
    hide Sole, KeptPage;
    ShapeBounds(im);
    ShapeBounds(im.(sz := sz));
    MoreUp(im.sz, sz);
    MoreUp(sz, im.sz);
    forall v: nat | v < UPAGES ensures Mapped(r, im.dir, v) <==> InLayout(v, sz, im.stack) {
      PagesAt(m, im, v);
    }
  }

  lemma SameLayout(m: Mem, r: Mem, im: Image)
    requires Layout(m, im) && im.dir in r.spaces && r.spaces[im.dir] == m.spaces[im.dir]
    ensures Layout(r, im)
  {
    forall v: nat | v < UPAGES ensures Mapped(r, im.dir, v) <==> InLayout(v, im.sz, im.stack) {
      PagesAt(m, im, v);
    }
  }

  /** Growing the heap: the new pages are zeroed, or nothing has changed but the order of
      the free list. */
  lemma GrowprocUp(m: Mem, im: Image, n: int)
    requires MemOk(m) && Layout(m, im) && 0 < n && Int32(n)
    ensures var (r, q, ok) := Growproc(m, im, n);
            && MemOk(r) && Sole(m, r, im.dir) && Layout(r, q)
            && (ok <==> im.sz + n + GAP <= Bottom(im) && Up(im.sz + n) - Up(im.sz) <= |m.free|)
            && q == (if ok then im.(sz := im.sz + n) else im)
            && (ok ==> Grown(m, r, im.dir, Up(im.sz), Up(im.sz + n), Zeros))
            && (!ok ==> r.spaces == m.spaces && FreeSet(r) == FreeSet(m))
  {
    hide MemOk, Sole, Grown, FreeSet, Up, Unmapped, KeptPage, PagesAre, Allocuvm, Ready;
    ShapeBounds(im);
    ShapeDir(m, im);
    WrapIs(im.sz + n + GAP);
    WrapIs(im.sz + n);
    WrapIs(Bottom(im));
    if im.sz + n + GAP <= Bottom(im) {
      UpBound(im.sz + n, im.stack);
      FreeAbove(m, im, Up(im.sz), Up(im.sz + n));
      AllocuvmGrowsOrRestores(m, im.dir, im.sz, im.sz + n);
      var (r, ret) := Allocuvm(m, im.dir, im.sz, im.sz + n);
      if ret == 0 {
        SameLayout(m, r, im);
      } else {
        GrownLayout(m, r, im, im.sz + n);
        GrownSole(m, r, im.dir, Up(im.sz), Up(im.sz + n));
      }
    } else {
      SoleNone(m, im.dir);
    }
  }

  lemma UpBound(sz: nat, stack: nat)
    requires sz + GAP <= USERTOP - PGSIZE * stack
    ensures Up(sz) <= UPAGES - stack
  {}

  lemma TooFarBreaks(m: Mem, r: Mem, im: Image)
    requires Layout(m, im) && im.sz > BASE && Shrunk(m, r, im.dir, 0, Up(im.sz))
    ensures !Layout(r, im)
  {
    assert InLayout(2, im.sz, im.stack);
    assert !Mapped(r, im.dir, 2);
  }

  lemma AtBaseKeeps(m: Mem, r: Mem, im: Image)
    requires Layout(m, im) && im.sz == BASE && Shrunk(m, r, im.dir, 0, Up(im.sz))
    ensures Layout(r, im)
  {
    hide Sole, KeptPage;
    ShapeBounds(im);
    forall v: nat | v < UPAGES ensures Mapped(r, im.dir, v) <==> InLayout(v, im.sz, im.stack) {
      PagesAt(m, im, v);
    }
  }

  /** Shrinking keeps the layout exactly when the size stays at 0x2000 or above, or does not
      change. A cut to exactly 0 frees the heap although the call fails; a cut below 0 wraps
      around and changes nothing. */
  lemma GrowprocDown(m: Mem, im: Image, n: int)
    requires MemOk(m) && Layout(m, im) && n < 0 && Int32(n)
    ensures var (r, q, ok) := Growproc(m, im, n);
            && MemOk(r) && Sole(m, r, im.dir)
            && (Layout(r, q) <==> !ShrinksTooFar(im, n))
            && (im.sz + n > 0 ==> ok && q == im.(sz := im.sz + n))
            && (im.sz + n == 0 ==> !ok && q == im)
            && (im.sz + n < 0 ==> r == m && q == im && (ok <==> im.sz + n + GAP >= 0))
  {
    hide MemOk, Sole, Shrunk, Up, KeptPage, PagesAre, Ready, Deallocuvm;
    ShapeBounds(im);
    ShapeDir(m, im);
    WrapIs(im.sz + n + GAP);
    WrapIs(im.sz + n);
    WrapIs(Bottom(im));
    if im.sz + n >= 0 {
      DeallocuvmShrinks(m, im.dir, im.sz, im.sz + n);
      var (r, ret) := Deallocuvm(m, im.dir, im.sz, im.sz + n);
      ShrunkSole(m, r, im.dir, Up(im.sz + n), Up(im.sz));
      if im.sz + n >= BASE {
        ShrunkLayout(m, r, im, im.sz + n);
      } else if im.sz + n == 0 {
        assert Up(0) == 0 by { UpZero(); }
        if im.sz > BASE { TooFarBreaks(m, r, im); } else { AtBaseKeeps(m, r, im); }
      }
    } else {
      SoleNone(m, im.dir);
      assert Deallocuvm(m, im.dir, im.sz, Wrap(im.sz + n)) == (m, im.sz) by { DeallocNothing(m, im.dir, im.sz, Wrap(im.sz + n)); }
    }
  }

  lemma UpZero()
    ensures Up(0) == 0
  {}

  lemma ShrunkSole(m: Mem, r: Mem, d: nat, v: nat, end: nat)
    requires Shrunk(m, r, d, v, end)
    ensures Sole(m, r, d)
  {}

  lemma DeallocNothing(m: Mem, d: nat, oldsz: nat, newsz: nat)
    requires d in m.spaces && newsz >= oldsz
    ensures Deallocuvm(m, d, oldsz, newsz) == (m, oldsz)
  {}

  /** growproc keeps the layout for exactly the arguments that do not shrink too far. */
  lemma GrowprocKeepsLayout(m: Mem, im: Image, n: int)
    requires MemOk(m) && Layout(m, im) && Int32(n)
    ensures im.dir in m.spaces
    ensures var (r, q, ok) := Growproc(m, im, n);
            && MemOk(r) && Sole(m, r, im.dir) && q.dir == im.dir && q.kstack == im.kstack && q.stack == im.stack
            && (Layout(r, q) <==> !ShrinksTooFar(im, n))
            && (n == 0 ==> ok && r == m && q == im)
  {
    hide MemOk, Sole, PagesAre;
    if n > 0 {
      GrowprocUp(m, im, n);
    } else if n < 0 {
      GrowprocDown(m, im, n);
    } else {
      SoleNone(m, im.dir);
      ShapeBounds(im);
      ShapeDir(m, im);
      WrapIs(im.sz + n + GAP);
      WrapIs(Bottom(im));
    }
  }

  // ----- growstack

  function Growstack(m: Mem, im: Image): (r: (Mem, Image, bool))
    requires im.dir in m.spaces
  {
    if Wrap(Bottom(im) - PGSIZE - im.sz) < GAP then (m, im, false)
    else
      var g := Allocuvm(m, im.dir, Wrap(Bottom(im) - PGSIZE), Wrap(Bottom(im)));
      if g.1 == 0 then (g.0, im, false) else (g.0, im.(stack := im.stack + 1), true)
  }

  lemma StackLayout(m: Mem, r: Mem, im: Image)
    requires Layout(m, im) && im.sz + GAP <= Bottom(im) - PGSIZE
    requires Grown(m, r, im.dir, UPAGES - im.stack - 1, UPAGES - im.stack, Zeros)
    ensures Layout(r, im.(stack := im.stack + 1))
  {
    hide Sole, KeptPage;
    ShapeBounds(im);
    forall v: nat | v < UPAGES ensures Mapped(r, im.dir, v) <==> InLayout(v, im.sz, im.stack + 1) {
      PagesAt(m, im, v);
    }
  }

  lemma StackPages(im: Image)
    requires Shape(im)
    ensures Up(Bottom(im) - PGSIZE) == UPAGES - im.stack - 1 && Up(Bottom(im)) == UPAGES - im.stack
  {}

  /** The stack grows by one zeroed page, exactly when the gap stays and a frame is free. */
  lemma GrowstackKeepsLayout(m: Mem, im: Image)
    requires MemOk(m) && Layout(m, im)
    ensures var (r, q, ok) := Growstack(m, im);
            && MemOk(r) && Sole(m, r, im.dir) && Layout(r, q)
            && (ok <==> im.sz + GAP <= Bottom(im) - PGSIZE && m.free != [])
            && q == (if ok then im.(stack := im.stack + 1) else im)
            && (ok ==> Grown(m, r, im.dir, UPAGES - im.stack - 1, UPAGES - im.stack, Zeros))
            && (!ok ==> r.spaces == m.spaces && FreeSet(r) == FreeSet(m))
  {
    hide MemOk, Sole, Grown, FreeSet, Up, Unmapped, KeptPage, PagesAre, Allocuvm, Ready;
    ShapeBounds(im);
    ShapeDir(m, im);
    WrapIs(Bottom(im) - PGSIZE - im.sz);
    WrapIs(Bottom(im) - PGSIZE);
    WrapIs(Bottom(im));
    StackPages(im);
    if im.sz + GAP <= Bottom(im) - PGSIZE {
      FreeAbove(m, im, UPAGES - im.stack - 1, UPAGES - im.stack);
      AllocuvmGrowsOrRestores(m, im.dir, Bottom(im) - PGSIZE, Bottom(im));
      var (r, ret) := Allocuvm(m, im.dir, Bottom(im) - PGSIZE, Bottom(im));
      if ret == 0 {
        SameLayout(m, r, im);
      } else {
        StackLayout(m, r, im);
        GrownSole(m, r, im.dir, UPAGES - im.stack - 1, UPAGES - im.stack);
      }
    } else {
      SoleNone(m, im.dir);
    }
  }

  // ----- fork and reaping

  datatype Child = Child(im: Image) | NoChild

  /** fork, as far as memory goes: a kernel stack, then a copy of the address space. */
  function Fork(m: Mem, im: Image, data: nat): (r: (Mem, Child))
    requires DataOk(data) && im.stack <= UPAGES
  {
    if m.free == [] then (m, NoChild) else
      var k := m.free[0];
      var c := Copyuvm(Take(m, Kernel), im.dir, im.sz, im.stack, data);
      if c.1.Null? then (Give(c.0, k), NoChild) else (c.0, Child(Image(c.1.frame, im.sz, im.stack, k)))
  }

  /** What wait does with a zombie's memory. */
  function Reap(m: Mem, im: Image): Mem
    requires im.dir in m.spaces
  {
    Freevm(Give(m, im.kstack), im.dir)
  }

  ghost predicate AllUntouched(m: Mem, r: Mem) { forall e :: e in m.spaces ==> Untouched(m, r, e) }

  lemma AllTwice(a: Mem, b: Mem, c: Mem)
    requires AllUntouched(a, b) && AllUntouched(b, c)
    ensures AllUntouched(a, c)
  {
    forall e | e in a.spaces ensures Untouched(a, c, e) {
      assert Untouched(a, b, e);
      UntouchedTwice(a, b, c, e);
    }
  }

  lemma TakeKernel(m: Mem)
    requires MemOk(m) && m.free != []
    ensures var (r, k) := (Take(m, Kernel), m.free[0]);
            && MemOk(r) && r.spaces == m.spaces && AllUntouched(m, r) && IsUsed(r, k, Kernel) && !IsUsed(m, k, Kernel)
            && r.low == m.low && forall f :: f != k ==> (IsUsed(m, f, Kernel) <==> IsUsed(r, f, Kernel))
  {
    HeadIsFree(m);
    TakeFree(m, Kernel);
    var r := Take(m, Kernel);
    forall f | f in r.use ensures FrameOk(r, f) {
      if f in m.use { FrameAt(m, f); }
    }
    forall e | e in r.spaces ensures DirOk(r, e) {
      DirAt(m, e);
    }
  }

  lemma GiveKernel(m: Mem, k: nat)
    requires MemOk(m) && IsUsed(m, k, Kernel)
    ensures var r := Give(m, k);
            && MemOk(r) && r.spaces == m.spaces && AllUntouched(m, r) && !IsUsed(r, k, Kernel)
            && r.low == m.low && FreeSet(r) == FreeSet(m) + {k}
            && forall f :: f != k ==> (IsUsed(m, f, Kernel) <==> IsUsed(r, f, Kernel))
  {
    GiveFree(m, k);
    var r := Give(m, k);
    forall f | f in r.use ensures FrameOk(r, f) {
      FrameAt(m, f);
    }
    forall e | e in r.spaces ensures DirOk(r, e) {
      DirAt(m, e);
    }
    forall e: nat, w: nat | w < UPAGES && Mapped(m, e, w) ensures PageBytes(r, e, w) == PageBytes(m, e, w) {
      PageFrame(m, e, w);
    }
  }

  /** The heap's and the stack's pages are the parent's, and the child has the same layout;
      or there is no child, and no other address space is touched. */
  ghost predicate Forked(m: Mem, im: Image, r: Mem, c: Child) {
    && MemOk(r) && AllUntouched(m, r)
    && match c
       case Child(q) =>
         && q.sz == im.sz && q.stack == im.stack && Layout(r, q) && q.dir !in m.spaces && r.spaces.Keys == m.spaces.Keys + {q.dir}
         && SamePages(m, im.dir, r, q.dir, im.sz, im.stack)
         && IsUsed(r, q.kstack, Kernel) && !IsUsed(m, q.kstack, Kernel)
         && (forall f :: f != q.kstack ==> (IsUsed(m, f, Kernel) <==> IsUsed(r, f, Kernel)))
       case NoChild => SameKernel(m, r)
  }

  /** The frames a fork takes: a kernel stack, a directory with its tables, and the pages. */
  function ForkFrames(im: Image): nat { 1 + DIRFRAMES + PageCount(im.sz, im.stack) }

  /** With this many free frames a failing fork loses all but one of them. */
  predicate ForkLoses(free: nat) { 2 <= free <= DIRFRAMES }

  /** There is a child exactly when there are frames for all it takes.  Without one the same
      frames are free as before, unless there were from 2 to 13. */
  lemma ForkCopies(m: Mem, im: Image, data: nat)
    requires MemOk(m) && Layout(m, im) && DataOk(data) && im.stack <= UPAGES
    ensures var (r, c) := Fork(m, im, data);
            && Forked(m, im, r, c) && (c.Child? <==> |m.free| >= ForkFrames(im))
            && (c.NoChild? && !ForkLoses(|m.free|) ==> r.spaces == m.spaces && FreeSet(r) == FreeSet(m))
            && (ForkLoses(|m.free|) ==> && c.NoChild? && |FreeSet(r)| == 1 && FreeSet(r) != FreeSet(m)
                                        && m.free[1] !in m.spaces && r.spaces.Keys == m.spaces.Keys + {m.free[1]})
    ensures var (r, c) := Fork(m, im, data); FreeSet(r) != FreeSet(m) && c.NoChild? <==> ForkLoses(|m.free|)
  {
    hide MemOk, Copyuvm, Setupkvm, Take, Give, FreeSet, Layout, SamePages, Lost, Copied;
    if m.free == [] {
      NothingForked(m, im);
    } else {
      TakenFree(m);
      if ForkLoses(|m.free|) {
        ForkLost(m, Take(m, Kernel), im, data, m.free[0]);
      } else {
        ForkSetUp(m, Take(m, Kernel), im, data, m.free[0]);
      }
    }
  }

  lemma TakenFree(m: Mem)
    requires m.free != []
    ensures Take(m, Kernel).free == m.free[1..]
  {}

  lemma ForkLost(m: Mem, t: Mem, im: Image, data: nat, k: nat)
    requires MemOk(m) && Layout(m, im) && DataOk(data) && ForkLoses(|m.free|) && k == m.free[0] && t == Take(m, Kernel)
    requires im.stack <= UPAGES && t.free == m.free[1..]
    ensures var (r, c) := Fork(m, im, data);
            && Forked(m, im, r, c) && c.NoChild? && |FreeSet(r)| == 1 && FreeSet(r) != FreeSet(m)
            && m.free[1] !in m.spaces && r.spaces.Keys == m.spaces.Keys + {m.free[1]}
  {
    hide MemOk, Copyuvm, Setupkvm, Take, Give, FreeSet, Untouched, PagesAre;
    TakeKernel(m);
    LayoutDir(m, im);
    CopyuvmCopiesOrRestores(t, im.dir, im.sz, im.stack, data);
    var s := Copyuvm(t, im.dir, im.sz, im.stack, data).0;
    GiveKernel(s, k);
    AllTwice(m, t, s);
    AllTwice(m, s, Give(s, k));
    TwoFree(m);
    assert FreeSet(Give(s, k)) == {k};
  }

  lemma TwoFree(m: Mem)
    requires MemOk(m) && |m.free| >= 2
    ensures m.free[1] in FreeSet(m) && m.free[0] != m.free[1]
  {
    assert m.free[1] in m.free;
  }

  lemma LayoutDir(m: Mem, im: Image)
    requires Layout(m, im)
    ensures im.dir in m.spaces && HeapEnd(im.sz) <= UPAGES - im.stack && im.stack <= UPAGES
    ensures forall v: nat :: v < UPAGES && InLayout(v, im.sz, im.stack) ==> Mapped(m, im.dir, v)
  {
    ShapeBounds(im);
  }

  lemma NothingForked(m: Mem, im: Image)
    requires MemOk(m)
    ensures Forked(m, im, m, NoChild)
  {}

  lemma ForkSetUp(m: Mem, t: Mem, im: Image, data: nat, k: nat)
    requires MemOk(m) && Layout(m, im) && DataOk(data) && m.free != [] && k == m.free[0] && t == Take(m, Kernel)
    requires im.stack <= UPAGES && t.free == m.free[1..] && !ForkLoses(|m.free|)
    ensures var (r, c) := Fork(m, im, data);
            && Forked(m, im, r, c) && (c.Child? <==> |m.free| >= ForkFrames(im))
            && (c.NoChild? ==> r.spaces == m.spaces && FreeSet(r) == FreeSet(m))
  {
    hide MemOk, Copyuvm, Setupkvm, Take, Give, FreeSet, PagesAre, SamePages, Born, Untouched, Lost, PageCount;
    TakeKernel(m);
    LayoutDir(m, im);
    CopyuvmCopiesOrRestores(t, im.dir, im.sz, im.stack, data);
    var (r, q) := Copyuvm(t, im.dir, im.sz, im.stack, data);
    AllTwice(m, t, r);
    match q
    case Null =>
      GiveKernel(r, k);
      AllTwice(m, r, Give(r, k));
      SameSpacesSameFree(m, Give(r, k));
    case At(d) =>
      BornKeys(t, r, d);
      SamePagesFrom(m, t, im, r, d);
  }

  lemma BornKeys(m: Mem, r: Mem, d: nat)
    requires Born(m, r, d)
    ensures d !in m.spaces && r.spaces.Keys == m.spaces.Keys + {d}
  {}

  lemma SamePagesFrom(m: Mem, t: Mem, im: Image, r: Mem, d: nat)
    requires AllUntouched(m, t) && Layout(m, im) && SamePages(t, im.dir, r, d, im.sz, im.stack)
    ensures SamePages(m, im.dir, r, d, im.sz, im.stack)
  {
    LayoutDir(m, im);
    assert Untouched(m, t, im.dir);
  }

  /** Reaping gives back the kernel stack and exactly the frames of the address space. */
  lemma ReapReturns(m: Mem, im: Image)
    requires MemOk(m) && im.dir in m.spaces && IsUsed(m, im.kstack, Kernel)
    ensures var r := Reap(m, im);
            && MemOk(r) && r.spaces == m.spaces - {im.dir} && FreeSet(r) == FreeSet(m) + Owned(m, im.dir) + {im.kstack}
            && (forall e :: e in m.spaces && e != im.dir ==> Untouched(m, r, e))
            && !IsUsed(r, im.kstack, Kernel) && forall f :: f != im.kstack ==> (IsUsed(m, f, Kernel) <==> IsUsed(r, f, Kernel))
  {
    hide MemOk, Give, FreeSet, Freevm, Owned, Untouched;
    GiveKernel(m, im.kstack);
    var g := Give(m, im.kstack);
    OwnedIs(m, g, im.dir);
    FreevmReturnsOwned(g, im.dir);
    var r := Freevm(g, im.dir);
    forall e | e in m.spaces && e != im.dir ensures Untouched(m, r, e) {
      UntouchedTwice(m, g, r, e);
    }
  }
}
