/** Building an address space with the kernel's mappings, and copying one for fork. */
module VmCopy {
  import opened Basics
  import opened VmSpec
  import opened VmRange

  datatype MapResult = Done | NoMemory | Remap

  /** A kernel pointer to a frame, or null. */
  datatype Ptr = Null | At(frame: nat)

  /** walkpgdir with create: the table of a page, made if it is missing. */
  function Walk(m: Mem, d: nat, v: nat): (r: (Mem, bool))
    requires d in m.spaces
    ensures r.0.spaces.Keys == m.spaces.Keys
    ensures r.1 ==> v / NENTRIES in r.0.spaces[d].tables
  {
    if v / NENTRIES in m.spaces[d].tables then (m, true)
    else if m.free == [] then (m, false)
    else (AddTable(m, d, v / NENTRIES), true)
  }

  /** mappages over the pages v to last, onto consecutive frames. */
  function MapRange(m: Mem, d: nat, v: nat, last: nat, pte: Pte): (r: (Mem, MapResult))
    requires d in m.spaces
    ensures r.0.spaces.Keys == m.spaces.Keys
    decreases last - v
  {
    var w := Walk(m, d, v);
    if !w.1 then (w.0, NoMemory)
    else if v in w.0.spaces[d].ptes then (w.0, Remap)
    else
      var e := AddEntry(w.0, d, v, pte);
      if v >= last then (e, Done) else MapRange(e, d, v + 1, last, pte.(frame := pte.frame + 1))
  }

  /** A range of kernel pages, mapped onto the frames of the same numbers. */
  datatype Kmap = Kmap(first: nat, end: nat, writable: bool)

  /** I/O space, kernel text, kernel data and memory, and devices; `data` is the first page
      of the kernel's data. */
  function KernelMap(data: nat): seq<Kmap> {
    [Kmap(160, 256, true), Kmap(256, data, false), Kmap(data, FRAMES, true), Kmap(0xF_E000, 0x10_0000, true)]
  }

  predicate DataOk(data: nat) { 256 < data < FRAMES }

  function MapKernel(m: Mem, d: nat, ks: seq<Kmap>): (r: (Mem, bool))
    requires d in m.spaces && forall i :: 0 <= i < |ks| ==> ks[i].first < ks[i].end
    ensures r.0.spaces.Keys == m.spaces.Keys
    decreases ks
  {
    if ks == [] then (m, true) else
      var r := MapRange(m, d, ks[0].first, ks[0].end - 1, Pte(ks[0].first, false, ks[0].writable));
      if r.1 != Done then (r.0, false) else MapKernel(r.0, d, ks[1..])
  }

  function Setupkvm(m: Mem, data: nat): (r: (Mem, Ptr))
    requires DataOk(data)
    ensures r.1.At? ==> r.1.frame in r.0.spaces
  {
    if m.free == [] then (m, Null) else
      var r := MapKernel(AddDir(m), m.free[0], KernelMap(data));
      (r.0, if r.1 then At(m.free[0]) else Null)
  }

  // ----- the kernel part of an address space

  ghost predicate NoUser(m: Mem, d: nat) { d in m.spaces && forall v :: v in m.spaces[d].ptes ==> v >= UPAGES }

  /** No page from v on is mapped. */
  ghost predicate Below(m: Mem, d: nat, v: nat) { d in m.spaces && forall w :: w in m.spaces[d].ptes ==> w < v }

  lemma WalkEffect(m: Mem, d: nat, v: nat)
    requires MemOk(m) && d in m.spaces && v < NENTRIES * NENTRIES
    ensures var (r, ok) := Walk(m, d, v);
            && MemOk(r) && Sole(m, r, d) && r.spaces[d].ptes == m.spaces[d].ptes
            && (forall x :: x in m.spaces[d].tables ==> x in r.spaces[d].tables)
            && (!ok ==> r.free == [])
  {
    if v / NENTRIES !in m.spaces[d].tables && m.free != [] {
      AddTableKeeps(m, d, v / NENTRIES);
      HeadIsFree(m);
      var r := AddTable(m, d, v / NENTRIES);
      forall e: nat, w: nat | w < UPAGES && Mapped(m, e, w) ensures PageBytes(r, e, w) == PageBytes(m, e, w) {
        PageFrame(m, e, w);
      }
    } else {
      SoleNone(m, d);
    }
  }

  lemma KernelEntryEffect(m: Mem, d: nat, v: nat, pte: Pte)
    requires MemOk(m) && d in m.spaces && v / NENTRIES in m.spaces[d].tables && v >= UPAGES && !pte.user
    ensures var r := AddEntry(m, d, v, pte);
            && MemOk(r) && Sole(m, r, d) && r.spaces[d].tables == m.spaces[d].tables
            && (forall w :: w in r.spaces[d].ptes <==> w in m.spaces[d].ptes || w == v)
  {
    AddEntryKeeps(m, d, v, pte);
    var r := AddEntry(m, d, v, pte);
    forall e: nat, w: nat | w < UPAGES && Mapped(m, e, w) ensures PageBytes(r, e, w) == PageBytes(m, e, w) {
      PageFrame(m, e, w);
    }
  }

  /** What mapping kernel pages keeps and adds. */
  ghost predicate KernelGrown(m: Mem, r: Mem, d: nat, v: nat, end: nat) {
    && MemOk(r) && Sole(m, r, d) && d in m.spaces && d in r.spaces
    && (forall w :: w in r.spaces[d].ptes ==> w in m.spaces[d].ptes || v <= w < end)
    && (forall x :: x in m.spaces[d].tables ==> x in r.spaces[d].tables)
  }

  lemma KernelGrownTwice(a: Mem, b: Mem, c: Mem, d: nat, u: nat, v: nat, end: nat)
    requires KernelGrown(a, b, d, u, v) && KernelGrown(b, c, d, v, end) && u <= v <= end
    ensures KernelGrown(a, c, d, u, end)
  {
    hide Sole;
    SoleTwice(a, b, c, d);
  }

  /** Mapping kernel pages where nothing is mapped never meets a mapped page, and touches no
      user page; it stops only for want of frames. */
  lemma {:induction false} MapRangeGrows(m: Mem, d: nat, v: nat, last: nat, pte: Pte)
    requires MemOk(m) && Below(m, d, v) && UPAGES <= v <= last < NENTRIES * NENTRIES && !pte.user
    ensures var (r, res) := MapRange(m, d, v, last, pte);
            && KernelGrown(m, r, d, v, last + 1) && res != Remap && (res == NoMemory ==> r.free == [])
            && (res == Done ==> v / NENTRIES in r.spaces[d].tables)
    decreases last - v
  {
    hide MemOk, Sole, Walk, AddEntry;
    WalkEffect(m, d, v);
    var (t, ok) := Walk(m, d, v);
    if ok {
      KernelEntryEffect(t, d, v, pte);
      var e := AddEntry(t, d, v, pte);
      SoleTwice(m, t, e, d);
      if v < last {
        MapRangeGrows(e, d, v + 1, last, pte.(frame := pte.frame + 1));
        KernelGrownTwice(m, e, MapRange(e, d, v + 1, last, pte.(frame := pte.frame + 1)).0, d, v, v + 1, last + 1);
      }
    }
  }

  /** Kernel ranges in increasing order. */
  predicate Rising(ks: seq<Kmap>, v: nat) {
    ks == [] || (UPAGES <= v <= ks[0].first < ks[0].end <= NENTRIES * NENTRIES && Rising(ks[1..], ks[0].end))
  }

  lemma {:induction false} RisingOk(ks: seq<Kmap>, v: nat)
    requires Rising(ks, v)
    ensures forall i :: 0 <= i < |ks| ==> ks[i].first < ks[i].end
    decreases ks
  {
    if ks != [] {
      RisingOk(ks[1..], ks[0].end);
      assert forall i :: 1 <= i < |ks| ==> ks[i] == ks[1..][i - 1];
    }
  }

  lemma {:induction false} MapKernelGrows(m: Mem, d: nat, ks: seq<Kmap>, v: nat)
    requires MemOk(m) && Below(m, d, v) && Rising(ks, v) && UPAGES <= v <= NENTRIES * NENTRIES
    requires forall i :: 0 <= i < |ks| ==> ks[i].first < ks[i].end
    ensures var (r, ok) := MapKernel(m, d, ks);
            && KernelGrown(m, r, d, v, NENTRIES * NENTRIES) && (!ok ==> r.free == [])
            && (ok && ks != [] ==> ks[0].first / NENTRIES in r.spaces[d].tables)
    decreases ks
  {
    hide MemOk, Sole, MapRange;
    if ks == [] {
      SoleNone(m, d);
    } else {
      var k := ks[0];
      var pte := Pte(k.first, false, k.writable);
      MapRangeGrows(m, d, k.first, k.end - 1, pte);
      var (a, res) := MapRange(m, d, k.first, k.end - 1, pte);
      if res == Done {
        RisingOk(ks[1..], k.end);
        MapKernelGrows(a, d, ks[1..], k.end);
        KernelGrownTwice(m, a, MapKernel(a, d, ks[1..]).0, d, k.first, k.end, NENTRIES * NENTRIES);
      }
    }
  }

  // ----- how many frames that takes

  /** No table lies above directory index x. */
  predicate TablesTo(m: Mem, d: nat, x: int) {
    d in m.spaces && (forall y :: y in m.spaces[d].tables ==> y <= x) && (x >= 0 ==> x in m.spaces[d].tables)
  }

  /** The tables that pages v to last are missing when none above index `top` is there. */
  function TablesFor(v: nat, last: nat, top: int): int {
    last / NENTRIES - v / NENTRIES + if v / NENTRIES == top then 0 else 1
  }

  lemma WalkFrames(m: Mem, d: nat, v: nat, top: int)
    requires TablesTo(m, d, top) && top <= v / NENTRIES
    ensures var (r, ok) := Walk(m, d, v);
            && (ok <==> v / NENTRIES == top || m.free != [])
            && (ok ==> TablesTo(r, d, v / NENTRIES) && |r.free| == |m.free| - (if v / NENTRIES == top then 0 else 1))
            && r.spaces[d].ptes == m.spaces[d].ptes
  {}

  lemma EntryFrames(m: Mem, d: nat, v: nat, pte: Pte)
    requires d in m.spaces && Below(m, d, v)
    ensures var r := AddEntry(m, d, v, pte); r.free == m.free && r.spaces[d].tables == m.spaces[d].tables && Below(r, d, v + 1)
  {}

  /** Mapping kernel pages takes one frame for each missing table, and fails exactly for want of them. */
  lemma {:induction false} MapRangeFrames(m: Mem, d: nat, v: nat, last: nat, pte: Pte, top: int)
    requires Below(m, d, v) && v <= last && TablesTo(m, d, top) && top <= v / NENTRIES
    ensures var (r, res) := MapRange(m, d, v, last, pte);
            && (res == Done <==> TablesFor(v, last, top) <= |m.free|)
            && (res == Done ==> && |r.free| == |m.free| - TablesFor(v, last, top)
                                && TablesTo(r, d, last / NENTRIES) && Below(r, d, last + 1))
    decreases last - v
  {
    hide Walk, AddEntry, TablesTo;
    WalkFrames(m, d, v, top);
    var (t, ok) := Walk(m, d, v);
    if ok {
      EntryFrames(t, d, v, pte);
      var e := AddEntry(t, d, v, pte);
      SameTables(t, e, d, v / NENTRIES);
      if v < last {
        MapRangeFrames(e, d, v + 1, last, pte.(frame := pte.frame + 1), v / NENTRIES);
      }
    }
  }

  lemma SameTables(m: Mem, r: Mem, d: nat, x: int)
    requires TablesTo(m, d, x) && d in r.spaces && r.spaces[d].tables == m.spaces[d].tables
    ensures TablesTo(r, d, x)
  {}

  function TablesForAll(ks: seq<Kmap>, top: int): int
    requires forall i :: 0 <= i < |ks| ==> ks[i].first < ks[i].end
  {
    if ks == [] then 0
    else TablesFor(ks[0].first, ks[0].end - 1, top) + TablesForAll(ks[1..], (ks[0].end - 1) / NENTRIES)
  }

  lemma {:induction false} TablesAreNeeded(ks: seq<Kmap>, v: nat, top: int)
    requires Rising(ks, v) && top <= v / NENTRIES
    requires forall i :: 0 <= i < |ks| ==> ks[i].first < ks[i].end
    ensures TablesForAll(ks, top) >= 0
    decreases ks
  {
    if ks != [] {
      TablesAreNeeded(ks[1..], ks[0].end, (ks[0].end - 1) / NENTRIES);
    }
  }

  lemma {:induction false} MapKernelFrames(m: Mem, d: nat, ks: seq<Kmap>, v: nat, top: int)
    requires Below(m, d, v) && Rising(ks, v) && TablesTo(m, d, top) && top <= v / NENTRIES
    requires forall i :: 0 <= i < |ks| ==> ks[i].first < ks[i].end
    ensures var (r, ok) := MapKernel(m, d, ks);
            && (ok <==> TablesForAll(ks, top) <= |m.free|)
            && (ok ==> |r.free| == |m.free| - TablesForAll(ks, top))
    decreases ks
  {
    hide MapRange, TablesTo;
    if ks != [] {
      var k := ks[0];
      var pte := Pte(k.first, false, k.writable);
      MapRangeFrames(m, d, k.first, k.end - 1, pte, top);
      RisingOk(ks[1..], k.end);
      TablesAreNeeded(ks[1..], k.end, (k.end - 1) / NENTRIES);
      var (a, res) := MapRange(m, d, k.first, k.end - 1, pte);
      if res == Done {
        MapKernelFrames(a, d, ks[1..], k.end, (k.end - 1) / NENTRIES);
      }
    }
  }

  /** The kernel's mappings span twelve tables, wherever its data begins. */
  lemma KernelTables(data: nat)
    requires DataOk(data)
    ensures TablesForAll(KernelMap(data), -1) == 12
  {
    var ks := KernelMap(data);
    assert ks[1..][1..] == ks[2..] && ks[2..][1..] == ks[3..] && ks[3..][1..] == [];
    assert TablesForAll(ks[3..], 3) == 8;
    assert TablesForAll(ks[2..], (data - 1) / NENTRIES) == 3 - (data - 1) / NENTRIES + 8;
    assert TablesForAll(ks[1..], 0) == 3 + 8;
  }

  /** The frames an empty directory with the kernel's mappings takes: itself and twelve tables. */
  const DIRFRAMES := 13

  lemma SetupkvmFrames(m: Mem, data: nat)
    requires DataOk(data)
    ensures var (r, p) := Setupkvm(m, data);
            (p.At? <==> |m.free| >= DIRFRAMES) && (p.At? ==> |r.free| == |m.free| - DIRFRAMES)
  {
    hide MapKernel, TablesForAll, KernelMap;
    if m.free != [] {
      KernelTables(data);
      RisingMap(data);
      RisingOk(KernelMap(data), UPAGES);
      MapKernelFrames(AddDir(m), m.free[0], KernelMap(data), UPAGES, -1);
    }
  }

  lemma AddDirEffect(m: Mem)
    requires MemOk(m) && m.free != []
    ensures var (r, d) := (AddDir(m), m.free[0]);
            && MemOk(r) && SameKernel(m, r) && d !in m.spaces && r.spaces == m.spaces[d := Space(map[], map[])]
            && forall e :: e in m.spaces ==> Untouched(m, r, e)
  {
    AddDirKeeps(m);
    HeadIsFree(m);
    var r := AddDir(m);
    forall e: nat, w: nat | w < UPAGES && Mapped(m, e, w) ensures PageBytes(r, e, w) == PageBytes(m, e, w) {
      PageFrame(m, e, w);
    }
  }

  /** setupkvm makes a new directory with a table for the user's addresses and no user page,
      and touches no other, exactly when thirteen frames are free.  With fewer, but any, it
      loses them all: they stay with a directory nobody gets. */
  lemma SetupkvmBuilds(m: Mem, data: nat)
    requires MemOk(m) && DataOk(data)
    ensures var (r, p) := Setupkvm(m, data);
            && MemOk(r) && SameKernel(m, r) && (forall e :: e in m.spaces ==> Untouched(m, r, e))
            && (p.At? ==> && p.frame !in m.spaces && r.spaces.Keys == m.spaces.Keys + {p.frame}
                          && Ready(r, p.frame) && NoUser(r, p.frame))
            && (p.At? <==> |m.free| >= DIRFRAMES) && (p.At? ==> |r.free| == |m.free| - DIRFRAMES)
            && (p.Null? ==> FreeSet(r) == {} && r.free == [])
            && (p.Null? && m.free == [] ==> r == m)
            && (p.Null? && m.free != [] ==> && m.free[0] !in m.spaces && r.spaces.Keys == m.spaces.Keys + {m.free[0]}
                                            && FreeSet(r) != FreeSet(m))
  {
    hide MemOk, Sole, MapRange, MapKernel, AddDir, Untouched;
    SetupkvmFrames(m, data);
    assert m.free != [] ==> m.free[0] in FreeSet(m);
    if m.free == [] {
      forall e | e in m.spaces ensures Untouched(m, m, e) { UntouchedNone(m, e); }
    } else {
      var d := m.free[0];
      AddDirEffect(m);
      RisingMap(data);
      MapKernelGrows(AddDir(m), d, KernelMap(data), UPAGES);
      var (r, ok) := MapKernel(AddDir(m), d, KernelMap(data));
      SoleGives(AddDir(m), r, d);
      forall e | e in m.spaces ensures Untouched(m, r, e) {
        UntouchedTwice(m, AddDir(m), r, e);
      }
    }
  }

  lemma RisingMap(data: nat)
    requires DataOk(data)
    ensures Rising(KernelMap(data), UPAGES)
  {
    var ks := KernelMap(data);
    assert Rising(ks[3..], FRAMES);
    assert ks[2..][1..] == ks[3..] && ks[1..][1..] == ks[2..];
    assert Rising(ks[2..], data);
    assert Rising(ks[1..], 256);
  }

  lemma UntouchedNone(m: Mem, e: nat)
    requires e in m.spaces
    ensures Untouched(m, m, e)
  {}

  lemma SoleGives(m: Mem, r: Mem, d: nat)
    requires Sole(m, r, d)
    ensures SameKernel(m, r) && r.spaces.Keys == m.spaces.Keys && forall e :: e in m.spaces && e != d ==> Untouched(m, r, e)
  {}

  // ----- copyuvm

  /** `copyuvm` of an address space with a heap up to sz and a stack of some pages. */
  function Copyuvm(m: Mem, p: nat, sz: nat, stack: nat, data: nat): (r: (Mem, Ptr))
    requires DataOk(data) && stack <= UPAGES
  {
    var s := Setupkvm(m, data);
    if s.1.Null? then s else
      var d := s.1.frame;
      var heap := AddPages(s.0, d, 2, Up(sz), CopyOf(p));
      if !heap.1 then (Freevm(heap.0, d), Null) else
        var all := AddPages(heap.0, d, UPAGES - stack, UPAGES, CopyOf(p));
        if !all.1 then (Freevm(all.0, d), Null) else (all.0, At(d))
  }

  /** The user pages of a process with a heap up to sz and a stack of some pages. */
  predicate InLayout(v: nat, sz: nat, stack: nat) { 2 <= v < Up(sz) || UPAGES - stack <= v < UPAGES }

  ghost predicate PagesAre(m: Mem, d: nat, sz: nat, stack: nat) {
    forall v: nat :: v < UPAGES ==> (Mapped(m, d, v) <==> InLayout(v, sz, stack))
  }

  /** d came into being, and every directory there was is untouched. */
  ghost predicate Born(m: Mem, r: Mem, d: nat) {
    && MemOk(r) && SameKernel(m, r) && d !in m.spaces && r.spaces.Keys == m.spaces.Keys + {d}
    && forall e :: e in m.spaces ==> Untouched(m, r, e)
  }

  lemma BornMore(m: Mem, a: Mem, r: Mem, d: nat)
    requires Born(m, a, d) && Sole(a, r, d) && MemOk(r)
    ensures Born(m, r, d)
  {
    forall e | e in m.spaces ensures Untouched(m, r, e) {
      assert Untouched(a, r, e);
      UntouchedTwice(m, a, r, e);
    }
  }

  /** Freeing what came into being brings back the address spaces and the free frames. */
  lemma BornFreed(m: Mem, r: Mem, d: nat)
    requires MemOk(m) && Born(m, r, d)
    ensures var f := Freevm(r, d);
            && MemOk(f) && SameKernel(m, f) && f.spaces == m.spaces && FreeSet(f) == FreeSet(m)
            && forall e :: e in m.spaces ==> Untouched(m, f, e)
  {
    hide MemOk, Untouched, Freevm, FreeSet;
    FreevmReturnsOwned(r, d);
    var f := Freevm(r, d);
    forall e | e in m.spaces ensures Untouched(m, f, e) && f.spaces[e] == m.spaces[e] {
      UntouchedTwice(m, r, f, e);
    }
    assert f.spaces == m.spaces;
    SameSpacesSameFree(m, f);
  }

  lemma UntouchedPage(m: Mem, r: Mem, e: nat, v: nat)
    requires Untouched(m, r, e) && v < UPAGES && Mapped(m, e, v)
    ensures Mapped(r, e, v) && PageBytes(r, e, v) == PageBytes(m, e, v)
  {}

  /** Copying a run of the parent's pages into a newborn directory. */
  lemma CopyRun(m: Mem, a: Mem, p: nat, d: nat, v: nat, end: nat) returns (k: nat)
    requires MemOk(m) && Born(m, a, d) && Ready(a, d) && p in m.spaces && v <= end <= UPAGES && Unmapped(a, d, v, end)
    requires forall w: nat :: v <= w < end ==> Mapped(m, p, w)
    ensures var (r, ok) := AddPages(a, d, v, end, CopyOf(p));
            && v <= k <= end && (ok <==> k == end) && Born(m, r, d) && Ready(r, d)
            && (ok <==> end - v <= |a.free|) && |r.free| == |a.free| - (k - v)
            && (forall w :: w in r.spaces[d].ptes <==> w in a.spaces[d].ptes || v <= w < k)
            && (forall w :: w < UPAGES && w in a.spaces[d].ptes ==> KeptPage(a, r, d, w))
            && (forall w: nat :: v <= w < k ==> PageBytes(r, d, w) == PageBytes(m, p, w))
  {
    hide MemOk, Untouched, AddPages, KeptPage, PageBytes, Sole, SameKernel;
    forall w: nat | v <= w < end ensures Mapped(a, p, w) && PageBytes(a, p, w) == PageBytes(m, p, w) {
      UntouchedPage(m, a, p, w);
    }
    k := AddPagesGrow(a, d, v, end, CopyOf(p));
    BornMore(m, a, AddPages(a, d, v, end, CopyOf(p)).0, d);
  }

  /** The child's pages are the parent's, byte for byte. */
  ghost predicate SamePages(m: Mem, p: nat, r: Mem, d: nat, sz: nat, stack: nat) {
    forall v: nat :: v < UPAGES && InLayout(v, sz, stack) ==> PageBytes(r, d, v) == PageBytes(m, p, v)
  }

  /** Where the heap loop of copyuvm ends: it runs from page 2. */
  function HeapEnd(sz: nat): (r: nat)
    ensures 2 <= r && (Up(sz) >= 2 ==> r == Up(sz)) && (Up(sz) < 2 ==> r == 2)
  {
    if Up(sz) < 2 then 2 else Up(sz)
  }

  lemma SameHeap(s: Mem, d: nat, sz: nat, p: nat)
    requires d in s.spaces
    ensures AddPages(s, d, 2, Up(sz), CopyOf(p)) == AddPages(s, d, 2, HeapEnd(sz), CopyOf(p))
  {}

  lemma NoUserUnmapped(s: Mem, d: nat, v: nat, end: nat)
    requires NoUser(s, d) && end <= UPAGES
    ensures Unmapped(s, d, v, end)
  {}

  lemma StackUnmapped(s: Mem, a: Mem, d: nat, end: nat, v: nat)
    requires NoUser(s, d) && d in a.spaces && (end <= v || end == 2)
    requires forall w :: w in a.spaces[d].ptes <==> w in s.spaces[d].ptes || 2 <= w < end
    ensures Unmapped(a, d, v, UPAGES)
  {}

  /** What copyuvm promises of its result. */
  ghost predicate Copied(m: Mem, p: nat, sz: nat, stack: nat, r: Mem, q: Ptr) {
    && MemOk(r) && SameKernel(m, r) && (forall e :: e in m.spaces ==> Untouched(m, r, e))
    && match q
       case At(d) => Born(m, r, d) && Ready(r, d) && PagesAre(r, d, sz, stack) && SamePages(m, p, r, d, sz, stack)
       case Null => r.spaces == m.spaces && FreeSet(r) == FreeSet(m)
  }

  lemma CopyFails(m: Mem, p: nat, sz: nat, stack: nat, a: Mem, d: nat)
    requires MemOk(m) && Born(m, a, d)
    ensures d in a.spaces && Copied(m, p, sz, stack, Freevm(a, d), Null)
  {
    hide MemOk, Untouched, Freevm, FreeSet;
    BornFreed(m, a, d);
  }

  lemma CopyWorks(m: Mem, p: nat, sz: nat, stack: nat, r: Mem, d: nat)
    requires Born(m, r, d) && Ready(r, d) && PagesAre(r, d, sz, stack) && SamePages(m, p, r, d, sz, stack)
    ensures Copied(m, p, sz, stack, r, At(d))
  {
    hide MemOk, Untouched, PagesAre, SamePages;
  }

  lemma BornDir(m: Mem, a: Mem, d: nat)
    requires Born(m, a, d)
    ensures d in a.spaces
  {}

  /** The pages copyuvm copies. */
  function PageCount(sz: nat, stack: nat): nat { HeapEnd(sz) - 2 + stack }

  /** From the pages of the heap on. */
  lemma CopyStack(m: Mem, s: Mem, a: Mem, p: nat, d: nat, sz: nat, stack: nat)
    requires MemOk(m) && Born(m, a, d) && Ready(a, d) && NoUser(s, d) && p in m.spaces
    requires stack <= UPAGES && (HeapEnd(sz) <= UPAGES - stack || HeapEnd(sz) == 2)
    requires forall v: nat :: v < UPAGES && InLayout(v, sz, stack) ==> Mapped(m, p, v)
    requires forall w :: w in a.spaces[d].ptes <==> w in s.spaces[d].ptes || 2 <= w < HeapEnd(sz)
    requires forall w: nat :: 2 <= w < HeapEnd(sz) ==> PageBytes(a, d, w) == PageBytes(m, p, w)
    ensures var (r, ok) := AddPages(a, d, UPAGES - stack, UPAGES, CopyOf(p));
            && (ok <==> stack <= |a.free|)
            && if ok then Copied(m, p, sz, stack, r, At(d)) else d in r.spaces && Copied(m, p, sz, stack, Freevm(r, d), Null)
  {
    hide MemOk, Untouched, AddPages, KeptPage, PageBytes, Sole, SameKernel, Freevm, FreeSet, Up, Copied, Born, HeapEnd;
    StackUnmapped(s, a, d, HeapEnd(sz), UPAGES - stack);
    var j := CopyRun(m, a, p, d, UPAGES - stack, UPAGES);
    var (r, ok) := AddPages(a, d, UPAGES - stack, UPAGES, CopyOf(p));
    if ok {
      forall w: nat | 2 <= w < HeapEnd(sz) && w < UPAGES ensures PageBytes(r, d, w) == PageBytes(m, p, w) {
        KeptBytes(a, r, d, w);
      }
      BothRuns(m, p, s, r, d, sz, stack);
      CopyWorks(m, p, sz, stack, r, d);
    } else {
      CopyFails(m, p, sz, stack, r, d);
    }
  }

  lemma BothRuns(m: Mem, p: nat, s: Mem, r: Mem, d: nat, sz: nat, stack: nat)
    requires NoUser(s, d) && d in r.spaces && stack <= UPAGES
    requires forall w :: w in r.spaces[d].ptes <==> w in s.spaces[d].ptes || 2 <= w < HeapEnd(sz) || UPAGES - stack <= w < UPAGES
    requires forall w: nat :: 2 <= w < HeapEnd(sz) && w < UPAGES ==> PageBytes(r, d, w) == PageBytes(m, p, w)
    requires forall w: nat :: UPAGES - stack <= w < UPAGES ==> PageBytes(r, d, w) == PageBytes(m, p, w)
    ensures PagesAre(r, d, sz, stack) && SamePages(m, p, r, d, sz, stack)
  {
    hide PageBytes;
  }

  lemma SetupBorn(m: Mem, data: nat)
    requires MemOk(m) && DataOk(data) && Setupkvm(m, data).1.At?
    ensures var (s, q) := Setupkvm(m, data); Born(m, s, q.frame) && Ready(s, q.frame) && NoUser(s, q.frame)
  {
    hide Setupkvm, MemOk, Untouched;
    SetupkvmBuilds(m, data);
  }

  /** Once there are frames for the directory, copyuvm copies everything or restores everything. */
  lemma CopyFromSetup(m: Mem, p: nat, sz: nat, stack: nat, data: nat)
    requires MemOk(m) && DataOk(data) && p in m.spaces && stack <= UPAGES
    requires HeapEnd(sz) <= UPAGES - stack || HeapEnd(sz) == 2
    requires forall v: nat :: v < UPAGES && InLayout(v, sz, stack) ==> Mapped(m, p, v)
    requires |m.free| >= DIRFRAMES
    ensures var (r, q) := Copyuvm(m, p, sz, stack, data);
            Copied(m, p, sz, stack, r, q) && (q.At? <==> |m.free| >= DIRFRAMES + PageCount(sz, stack))
  {
    hide MemOk, Untouched, AddPages, KeptPage, PageBytes, Sole, SameKernel, Freevm, FreeSet, Setupkvm, Up, Copied, Born, HeapEnd;
    SetupkvmFrames(m, data);
    SetupBorn(m, data);
    var (s, q) := Setupkvm(m, data);
    var (d, end) := (q.frame, HeapEnd(sz));
    SameHeap(s, d, sz, p);
    NoUserUnmapped(s, d, 2, end);
    var k := CopyRun(m, s, p, d, 2, end);
    var (a, ok) := AddPages(s, d, 2, end, CopyOf(p));
    if ok {
      CopyStack(m, s, a, p, d, sz, stack);
    } else {
      CopyFails(m, p, sz, stack, a, d);
    }
  }

  /** A directory nobody gets has swallowed every free frame. */
  ghost predicate Lost(m: Mem, r: Mem) {
    && MemOk(r) && SameKernel(m, r) && (forall e :: e in m.spaces ==> Untouched(m, r, e))
    && FreeSet(r) == {} && FreeSet(r) != FreeSet(m)
    && m.free != [] && m.free[0] !in m.spaces && r.spaces.Keys == m.spaces.Keys + {m.free[0]}
  }

  /** copyuvm gives a new directory with the parent's pages, byte for byte, exactly when there
      are thirteen frames and one for each page.  Failing, it brings back every free frame
      exactly when there are thirteen of them, or none; else all are lost.  The parent and
      all others are untouched. */
  lemma CopyuvmCopiesOrRestores(m: Mem, p: nat, sz: nat, stack: nat, data: nat)
    requires MemOk(m) && DataOk(data) && p in m.spaces && stack <= UPAGES
    requires HeapEnd(sz) <= UPAGES - stack || HeapEnd(sz) == 2
    requires forall v: nat :: v < UPAGES && InLayout(v, sz, stack) ==> Mapped(m, p, v)
    ensures var (r, q) := Copyuvm(m, p, sz, stack, data);
            && (q.At? <==> |m.free| >= DIRFRAMES + PageCount(sz, stack))
            && (m.free == [] || |m.free| >= DIRFRAMES ==> Copied(m, p, sz, stack, r, q))
            && (0 < |m.free| < DIRFRAMES ==> q == Null && Lost(m, r))
  {
    hide Copied, Setupkvm, AddPages, HeapEnd;
    if |m.free| >= DIRFRAMES {
      CopyFromSetup(m, p, sz, stack, data);
    } else {
      SetupkvmBuilds(m, data);
      if m.free == [] {
        NothingCopied(m, p, sz, stack);
      }
    }
  }

  lemma NothingCopied(m: Mem, p: nat, sz: nat, stack: nat)
    requires MemOk(m)
    ensures Copied(m, p, sz, stack, m, Null)
  {}

  /** The child's frames were free before the copy, and each is used once. */
  lemma CopyIsFresh(m: Mem, r: Mem, d: nat, v: nat)
    requires MemOk(m) && Born(m, r, d) && v < UPAGES && Mapped(r, d, v)
    ensures r.spaces[d].ptes[v].frame in m.free
    ensures forall w: nat :: w < UPAGES && w != v && Mapped(r, d, w) ==> r.spaces[d].ptes[w].frame != r.spaces[d].ptes[v].frame
  {
    hide Owned, Untouched;
    PageFrame(r, d, v);
    var f := r.spaces[d].ptes[v].frame;
    forall w: nat | w < UPAGES && w != v && Mapped(r, d, w) ensures r.spaces[d].ptes[w].frame != f {
      PageFrame(r, d, w);
    }
    assert Managed(m, f);
    if f in m.use { StillUsed(m, r, d, f); }
  }

  /** What was in use is not taken for the copy. */
  lemma StillUsed(m: Mem, r: Mem, d: nat, f: nat)
    requires MemOk(m) && Born(m, r, d) && f in m.use
    ensures f in r.use && !BelongsTo(f, r.use[f], d)
  {
    hide MemOk, Untouched, Owned;
    UsedBy(m, f);
    if !IsUsed(m, f, Kernel) {
      var e :| e in m.spaces && f in Owned(m, e);
      assert Untouched(m, r, e) && d !in m.spaces;
      StillOwned(m, r, e, f);
      OwnedWhen(r, e, f);
    }
  }

  lemma StillOwned(m: Mem, r: Mem, e: nat, f: nat)
    requires Untouched(m, r, e) && f in Owned(m, e)
    ensures f in Owned(r, e)
  {
    hide Owned;
    OwnedIs(m, r, e);
  }
}
