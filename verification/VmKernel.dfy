/** The entries of page tables: which pages of the kernel a directory maps, onto which frames,
    and with which permissions, and that every user page is the user's to read and write. */
module VmKernel {
  import opened Basics
  import opened VmSpec
  import opened VmRange
  import opened VmCopy
  import opened VmLayout

  /** Pages from 640 KB to 16 MB and the last 32 MB of the address space. */
  predicate KernelPage(v: nat) { 160 <= v < 4096 || 0xF_E000 <= v < 0x10_0000 }

  /** Kernel pages lie at the frame of their own number, and all but the kernel's text, from
      1 MB to its data, may be written; other pages are the user's. */
  predicate EntryRight(v: nat, pte: Pte, data: nat) {
    if v < 160 then pte.user && pte.writable
    else KernelPage(v) && pte.frame == v && !pte.user && (pte.writable <==> !(256 <= v < data))
  }

  /** The directory maps every kernel page, and all its entries are right. */
  ghost predicate Maps(m: Mem, d: nat, data: nat) {
    && d in m.spaces
    && (forall v: nat :: KernelPage(v) ==> v in m.spaces[d].ptes)
    && (forall v: nat :: v in m.spaces[d].ptes ==> EntryRight(v, m.spaces[d].ptes[v], data))
  }

  /** r differs from m at most in directory d. */
  predicate Elsewhere(m: Mem, r: Mem, d: nat) {
    d in m.spaces && d in r.spaces && r.spaces == m.spaces[d := r.spaces[d]]
  }

  // ----- one entry at a time

  datatype Entry = Absent | Present(pte: Pte)

  function EntryAt(m: Mem, d: nat, w: nat): Entry {
    if Mapped(m, d, w) then Present(m.spaces[d].ptes[w]) else Absent
  }

  lemma StepAt(m: Mem, d: nat, v: nat, pte: Pte, w: nat)
    requires d in m.spaces
    ensures var t := Walk(m, d, v).0;
            && Elsewhere(m, t, d) && EntryAt(t, d, w) == EntryAt(m, d, w)
            && Elsewhere(m, AddEntry(t, d, v, pte), d)
            && EntryAt(AddEntry(t, d, v, pte), d, w) == if w == v then Present(pte) else EntryAt(m, d, w)
  {}

  /** Page v + i on frame pa + i up to page last, with the permissions given; other entries
      as they were. */
  function FrameEntry(m: Mem, d: nat, v: nat, last: nat, pte: Pte, w: nat): Entry {
    if v <= w <= last then Present(Pte(pte.frame + (w - v), pte.user, pte.writable)) else EntryAt(m, d, w)
  }

  ghost predicate OnFrames(m: Mem, r: Mem, d: nat, v: nat, last: nat, pte: Pte) {
    forall w: nat :: EntryAt(r, d, w) == FrameEntry(m, d, v, last, pte, w)
  }

  /** mappages puts page v + i on frame pa + i, with the permissions given, and changes no
      other entry. */
  lemma {:induction false} MapRangeAt(m: Mem, d: nat, v: nat, last: nat, pte: Pte, w: nat)
    requires d in m.spaces && v <= last && MapRange(m, d, v, last, pte).1 == Done
    ensures var r := MapRange(m, d, v, last, pte).0;
            && Elsewhere(m, r, d)
            && EntryAt(r, d, w) == FrameEntry(m, d, v, last, pte, w)
    decreases last - v
  {
    hide Walk, AddEntry, EntryAt;
    StepAt(m, d, v, pte, w);
    var e := AddEntry(Walk(m, d, v).0, d, v, pte);
    if v < last {
      MapRangeAt(e, d, v + 1, last, pte.(frame := pte.frame + 1), w);
    }
  }

  /** mappages finishes only if no page of the range was mapped, and stops with a remap only if one was. */
  lemma {:induction false} MapRangeOutcome(m: Mem, d: nat, v: nat, last: nat, pte: Pte)
    requires d in m.spaces && v <= last
    ensures MapRange(m, d, v, last, pte).1 == Done ==> forall w: nat :: v <= w <= last ==> EntryAt(m, d, w) == Absent
    ensures MapRange(m, d, v, last, pte).1 == Remap ==> exists w: nat :: v <= w <= last && EntryAt(m, d, w) != Absent
    decreases last - v
  {
    hide Walk;
    var t := Walk(m, d, v);
    var e := AddEntry(t.0, d, v, pte);
    StepAt(m, d, v, pte, v);
    forall w: nat ensures EntryAt(t.0, d, w) == EntryAt(m, d, w) && (w != v ==> EntryAt(e, d, w) == EntryAt(m, d, w)) {
      StepAt(m, d, v, pte, w);
    }
    if t.1 && v !in t.0.spaces[d].ptes && v < last {
      MapRangeOutcome(e, d, v + 1, last, pte.(frame := pte.frame + 1));
    }
    assert v in t.0.spaces[d].ptes ==> EntryAt(m, d, v) != Absent;
  }

  /** The entry the ranges of the kernel make for page w, the last range first. */
  function KernelEntry(ks: seq<Kmap>, w: nat, before: Entry): Entry
    decreases ks
  {
    if ks == [] then before
    else KernelEntry(ks[1..], w, if ks[0].first <= w < ks[0].end then Present(Pte(w, false, ks[0].writable)) else before)
  }

  lemma {:induction false} MapKernelAt(m: Mem, d: nat, ks: seq<Kmap>, w: nat)
    requires d in m.spaces && (forall i :: 0 <= i < |ks| ==> ks[i].first < ks[i].end) && MapKernel(m, d, ks).1
    ensures var r := MapKernel(m, d, ks).0; Elsewhere(m, r, d) && EntryAt(r, d, w) == KernelEntry(ks, w, EntryAt(m, d, w))
    decreases ks
  {
    hide MapRange, EntryAt;
    if ks != [] {
      var pte := Pte(ks[0].first, false, ks[0].writable);
      MapRangeAt(m, d, ks[0].first, ks[0].end - 1, pte, w);
      MapKernelAt(MapRange(m, d, ks[0].first, ks[0].end - 1, pte).0, d, ks[1..], w);
    }
  }

  lemma KernelEntryIs(data: nat, w: nat)
    requires DataOk(data)
    ensures KernelEntry(KernelMap(data), w, Absent) == if KernelPage(w) then Present(Pte(w, false, !(256 <= w < data))) else Absent
  {
    var ks := KernelMap(data);
    assert ks[1..][1..] == ks[2..] && ks[2..][1..] == ks[3..] && ks[3..][1..] == [];
    var one := if 160 <= w < 256 then Present(Pte(w, false, true)) else Absent;
    var two := if 256 <= w < data then Present(Pte(w, false, false)) else one;
    var three := if data <= w < 4096 then Present(Pte(w, false, true)) else two;
    var four := if 0xF_E000 <= w < 0x10_0000 then Present(Pte(w, false, true)) else three;
    assert ks[1..][0] == ks[1] && ks[2..][0] == ks[2] && ks[3..][0] == ks[3];
    assert KernelEntry(ks, w, Absent) == KernelEntry(ks[1..], w, one);
    assert KernelEntry(ks[1..], w, one) == KernelEntry(ks[2..], w, two);
    assert KernelEntry(ks[2..], w, two) == KernelEntry(ks[3..], w, three);
    assert KernelEntry(ks[3..], w, three) == KernelEntry([], w, four) == four;
  }

  /** setupkvm makes a directory with the kernel's pages, each at the frame of its own number,
      the text read-only, none for the user, and nothing else; others are as they were. */
  lemma SetupkvmMaps(m: Mem, data: nat)
    requires DataOk(data) && Setupkvm(m, data).1.At?
    ensures var (r, p) := Setupkvm(m, data);
            && Maps(r, p.frame, data) && (forall v: nat :: v in r.spaces[p.frame].ptes ==> KernelPage(v))
            && r.spaces == m.spaces[p.frame := r.spaces[p.frame]]
  {
    hide MapKernel, KernelMap, KernelEntry;
    var (a, d) := (AddDir(m), m.free[0]);
    var r := Setupkvm(m, data).0;
    KernelRanges(data);
    forall w: nat ensures EntryAt(r, d, w) == if KernelPage(w) then Present(Pte(w, false, !(256 <= w < data))) else Absent {
      MapKernelAt(a, d, KernelMap(data), w);
      KernelEntryIs(data, w);
    }
    MapKernelAt(a, d, KernelMap(data), 0);
    forall v: nat ensures v in r.spaces[d].ptes <==> KernelPage(v) {
      assert EntryAt(r, d, v) == if KernelPage(v) then Present(Pte(v, false, !(256 <= v < data))) else Absent;
    }
  }

  lemma KernelRanges(data: nat)
    requires DataOk(data)
    ensures forall i :: 0 <= i < |KernelMap(data)| ==> KernelMap(data)[i].first < KernelMap(data)[i].end
  {}

  // ----- the steps that change user pages

  /** Only user pages of d may have changed, and new ones are the user's to read and write. */
  ghost predicate UserOnly(m: Mem, r: Mem, d: nat) {
    Elsewhere(m, r, d) && forall w: nat :: EntryKept(m, r, d, w)
  }

  predicate EntryKept(m: Mem, r: Mem, d: nat, w: nat) {
    EntryAt(r, d, w) == EntryAt(m, d, w) || (w < 160 && (EntryAt(r, d, w).Present? ==> EntryAt(r, d, w).pte.user && EntryAt(r, d, w).pte.writable))
  }

  lemma UserOnlyTwice(a: Mem, b: Mem, c: Mem, d: nat)
    requires UserOnly(a, b, d) && UserOnly(b, c, d)
    ensures UserOnly(a, c, d)
  {
    hide EntryAt;
    forall w: nat ensures EntryKept(a, c, d, w) {
      assert EntryKept(a, b, d, w) && EntryKept(b, c, d, w);
    }
  }

  lemma {:induction false} AddPagesOnly(m: Mem, d: nat, v: nat, end: nat, src: Source)
    requires d in m.spaces && end <= 160
    ensures UserOnly(m, AddPages(m, d, v, end, src).0, d)
    decreases end - v
  {
    hide AddPage, UserOnly, Content;
    if v >= end || m.free == [] {
      SameOnly(m, d);
    } else {
      var a := AddPage(m, d, v, Content(m, src, v));
      AddPageOnly(m, d, v, Content(m, src, v));
      AddPagesOnly(a, d, v + 1, end, src);
      UserOnlyTwice(m, a, AddPages(m, d, v, end, src).0, d);
    }
  }

  lemma SameOnly(m: Mem, d: nat)
    requires d in m.spaces
    ensures UserOnly(m, m, d)
  {}

  lemma AddPageOnly(m: Mem, d: nat, v: nat, bytes: Bytes)
    requires m.free != [] && d in m.spaces && v < 160
    ensures d in AddPage(m, d, v, bytes).spaces && UserOnly(m, AddPage(m, d, v, bytes), d)
  {}

  lemma DropPageOnly(m: Mem, d: nat, v: nat)
    requires d in m.spaces && v in m.spaces[d].ptes && v < 160
    ensures d in DropPage(m, d, v).spaces && UserOnly(m, DropPage(m, d, v), d)
  {}

  lemma {:induction false} DropPagesOnly(m: Mem, d: nat, v: nat, end: nat)
    requires d in m.spaces && end <= 160
    ensures UserOnly(m, DropPages(m, d, v, end), d)
    decreases end - v
  {
    hide DropPage, UserOnly;
    if v >= end {
      SameOnly(m, d);
    } else if v in m.spaces[d].ptes {
      DropPageOnly(m, d, v);
      DropPagesOnly(DropPage(m, d, v), d, v + 1, end);
      UserOnlyTwice(m, DropPage(m, d, v), DropPages(m, d, v, end), d);
    } else {
      DropPagesOnly(m, d, v + 1, end);
    }
  }

  /** Such a step keeps every entry right, in every directory. */
  lemma UserOnlyKeeps(m: Mem, r: Mem, d: nat, e: nat, data: nat)
    requires UserOnly(m, r, d) && Maps(m, e, data)
    ensures Maps(r, e, data)
  {
    hide Elsewhere;
    SameElsewhere(m, r, d, e);
    if e == d {
      forall v: nat | v in r.spaces[d].ptes || KernelPage(v) ensures v in r.spaces[d].ptes && EntryRight(v, r.spaces[d].ptes[v], data) {
        assert EntryKept(m, r, d, v);
      }
    }
  }

  lemma SameElsewhere(m: Mem, r: Mem, d: nat, e: nat)
    requires Elsewhere(m, r, d) && e in m.spaces
    ensures d in r.spaces && e in r.spaces && (e != d ==> r.spaces[e] == m.spaces[e])
  {}

  lemma SizePages(size: nat)
    requires size <= USERTOP
    ensures Up(size) <= 160
  {}

  lemma AllocuvmOnly(m: Mem, d: nat, oldsz: nat, newsz: nat)
    requires d in m.spaces
    ensures UserOnly(m, Allocuvm(m, d, oldsz, newsz).0, d)
  {
    hide UserOnly, AddPages, DropPages, Up;
    SameOnly(m, d);
    if oldsz <= newsz <= USERTOP {
      SizePages(newsz);
      AddPagesOnly(m, d, Up(oldsz), Up(newsz), Zeros);
      var g := AddPages(m, d, Up(oldsz), Up(newsz), Zeros).0;
      DeallocuvmOnly(g, d, newsz, oldsz);
      UserOnlyTwice(m, g, Deallocuvm(g, d, newsz, oldsz).0, d);
    }
  }

  lemma DeallocuvmOnly(m: Mem, d: nat, oldsz: nat, newsz: nat)
    requires d in m.spaces && oldsz <= USERTOP
    ensures UserOnly(m, Deallocuvm(m, d, oldsz, newsz).0, d)
  {
    hide UserOnly, DropPages, Up;
    SameOnly(m, d);
    SizePages(oldsz);
    DropPagesOnly(m, d, Up(newsz), Up(oldsz));
  }

  /** A copied address space maps the kernel as a new one does. */
  lemma CopyuvmMaps(m: Mem, p: nat, sz: nat, stack: nat, data: nat)
    requires DataOk(data) && stack <= UPAGES && Up(sz) <= 160 && Copyuvm(m, p, sz, stack, data).1.At?
    ensures var (r, q) := Copyuvm(m, p, sz, stack, data); Maps(r, q.frame, data)
  {
    hide UserOnly, AddPages, Setupkvm, Up, Maps;
    SetupkvmMaps(m, data);
    var (s, q) := Setupkvm(m, data);
    var a := AddPages(s, q.frame, 2, Up(sz), CopyOf(p)).0;
    AddPagesOnly(s, q.frame, 2, Up(sz), CopyOf(p));
    UserOnlyKeeps(s, a, q.frame, q.frame, data);
    AddPagesOnly(a, q.frame, UPAGES - stack, UPAGES, CopyOf(p));
    UserOnlyKeeps(a, AddPages(a, q.frame, UPAGES - stack, UPAGES, CopyOf(p)).0, q.frame, q.frame, data);
  }

  /** So does the child of a fork. */
  lemma ForkMaps(m: Mem, im: Image, data: nat)
    requires DataOk(data) && Shape(im) && im.stack <= UPAGES && Fork(m, im, data).1.Child?
    ensures var (r, c) := Fork(m, im, data); Maps(r, c.im.dir, data)
  {
    hide Copyuvm, Maps;
    SizePages(im.sz);
    CopyuvmMaps(Take(m, Kernel), im.dir, im.sz, im.stack, data);
  }

  // ----- what growproc and growstack change

  lemma GrowprocOnly(m: Mem, im: Image, n: int)
    requires im.dir in m.spaces && Shape(im)
    ensures UserOnly(m, Growproc(m, im, n).0, im.dir)
  {
    hide UserOnly, Allocuvm, Deallocuvm;
    SameOnly(m, im.dir);
    AllocuvmOnly(m, im.dir, im.sz, Wrap(im.sz + n));
    DeallocuvmOnly(m, im.dir, im.sz, Wrap(im.sz + n));
  }

  lemma GrowstackOnly(m: Mem, im: Image)
    requires im.dir in m.spaces
    ensures UserOnly(m, Growstack(m, im).0, im.dir)
  {
    hide UserOnly, Allocuvm;
    SameOnly(m, im.dir);
    AllocuvmOnly(m, im.dir, Wrap(Bottom(im) - PGSIZE), Wrap(Bottom(im)));
  }
}
