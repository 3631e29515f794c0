/** Growing, shrinking, building, copying and freeing address spaces. */
module VmRange {
  import opened Basics
  import opened VmSpec

  // ----- what a change to one address space leaves alone

  /** Directory e and the bytes of its user pages are as they were. */
  ghost predicate Untouched(m: Mem, r: Mem, e: nat) {
    && e in m.spaces && e in r.spaces && r.spaces[e] == m.spaces[e]
    && forall v: nat :: v < UPAGES && Mapped(m, e, v) ==> PageBytes(r, e, v) == PageBytes(m, e, v)
  }

  /** Only directory d may have changed. */
  ghost predicate Sole(m: Mem, r: Mem, d: nat) {
    && SameKernel(m, r) && r.spaces.Keys == m.spaces.Keys
    && forall e :: e in m.spaces && e != d ==> Untouched(m, r, e)
  }

  /** A page of d is where it was and holds what it held. */
  predicate KeptPage(m: Mem, r: Mem, d: nat, v: nat) {
    Mapped(m, d, v) && Mapped(r, d, v) && r.spaces[d].ptes[v] == m.spaces[d].ptes[v] && PageBytes(r, d, v) == PageBytes(m, d, v)
  }

  lemma SoleTwice(a: Mem, b: Mem, c: Mem, d: nat)
    requires Sole(a, b, d) && Sole(b, c, d)
    ensures Sole(a, c, d)
  {
    forall e | e in a.spaces && e != d ensures Untouched(a, c, e) {
      assert Untouched(a, b, e) && Untouched(b, c, e);
    }
  }

  lemma PageFrame(m: Mem, d: nat, v: nat)
    requires MemOk(m) && v < UPAGES && Mapped(m, d, v)
    ensures var f := m.spaces[d].ptes[v].frame;
            && IsUsed(m, f, Page(d, v)) && f in m.data && |m.data[f]| == PGSIZE && PageBytes(m, d, v) == m.data[f]
            && Managed(m, f)
  {
    DirAt(m, d);
    FrameAt(m, m.spaces[d].ptes[v].frame);
  }

  lemma AddPageEffect(m: Mem, d: nat, v: nat, bytes: Bytes)
    requires MemOk(m) && m.free != [] && Ready(m, d) && v < UPAGES && v !in m.spaces[d].ptes
    ensures var r := AddPage(m, d, v, bytes);
            && Sole(m, r, d) && Ready(r, d) && r.spaces[d].tables == m.spaces[d].tables
            && (forall w :: w in r.spaces[d].ptes <==> w in m.spaces[d].ptes || w == v)
            && (forall w :: w < UPAGES && w in m.spaces[d].ptes ==> KeptPage(m, r, d, w))
            && (forall w :: w >= UPAGES && w in m.spaces[d].ptes ==> r.spaces[d].ptes[w] == m.spaces[d].ptes[w])
            && PageBytes(r, d, v) == bytes && |r.free| == |m.free| - 1
  {
    HeadIsFree(m);
    var r := AddPage(m, d, v, bytes);
    forall e: nat, w: nat | w < UPAGES && Mapped(m, e, w) ensures PageBytes(r, e, w) == PageBytes(m, e, w) {
      PageFrame(m, e, w);
    }
  }

  lemma DropPageEffect(m: Mem, d: nat, v: nat)
    requires MemOk(m) && v < UPAGES && Mapped(m, d, v)
    ensures var r := DropPage(m, d, v);
            && Sole(m, r, d) && r.spaces[d].tables == m.spaces[d].tables
            && (forall w :: w in r.spaces[d].ptes <==> w in m.spaces[d].ptes && w != v)
            && (forall w :: w < UPAGES && w in r.spaces[d].ptes ==> KeptPage(m, r, d, w))
            && (forall w :: w >= UPAGES && w in m.spaces[d].ptes ==> r.spaces[d].ptes[w] == m.spaces[d].ptes[w])
  {
    PageFrame(m, d, v);
    var r := DropPage(m, d, v);
    forall e: nat, w: nat | w < UPAGES && Mapped(m, e, w) && !(e == d && w == v) ensures PageBytes(r, e, w) == PageBytes(m, e, w) {
      PageFrame(m, e, w);
    }
  }

  // ----- adding and dropping pages in a row

  datatype Source = Zeros | CopyOf(dir: nat)

  function Content(m: Mem, src: Source, v: nat): Bytes {
    match src
    case Zeros => Fill(0)
    case CopyOf(p) => PageBytes(m, p, v)
  }

  /** The loops of allocuvm and copyuvm: pages v up to end, while there are frames. */
  function AddPages(m: Mem, d: nat, v: nat, end: nat, src: Source): (r: (Mem, bool))
    requires d in m.spaces
    ensures r.0.spaces.Keys == m.spaces.Keys
    decreases end - v
  {
    if v >= end then (m, true) else if m.free == [] then (m, false)
    else AddPages(AddPage(m, d, v, Content(m, src, v)), d, v + 1, end, src)
  }

  /** The loop of deallocuvm. */
  function DropPages(m: Mem, d: nat, v: nat, end: nat): (r: Mem)
    requires d in m.spaces
    ensures r.spaces.Keys == m.spaces.Keys
    decreases end - v
  {
    if v >= end then m else DropPages(if v in m.spaces[d].ptes then DropPage(m, d, v) else m, d, v + 1, end)
  }

  /** r is m with pages v up to k of d added, filled from the source. */
  ghost predicate Grown(m: Mem, r: Mem, d: nat, v: nat, k: nat, src: Source)
  {
    && Sole(m, r, d) && Ready(m, d) && Ready(r, d) && r.spaces[d].tables == m.spaces[d].tables
    && (forall w :: w in r.spaces[d].ptes <==> w in m.spaces[d].ptes || v <= w < k)
    && (forall w :: w < UPAGES && w in m.spaces[d].ptes ==> KeptPage(m, r, d, w))
    && (forall w :: w >= UPAGES && w in m.spaces[d].ptes ==> r.spaces[d].ptes[w] == m.spaces[d].ptes[w])
    && (forall w :: v <= w < k ==> PageBytes(r, d, w) == Content(m, src, w))
  }

  /** r is m without the user pages v up to end of d. */
  ghost predicate Shrunk(m: Mem, r: Mem, d: nat, v: nat, end: nat) {
    && Sole(m, r, d) && d in m.spaces && d in r.spaces && r.spaces[d].tables == m.spaces[d].tables
    && (forall w :: w in r.spaces[d].ptes <==> w in m.spaces[d].ptes && !(v <= w < end))
    && (forall w :: w < UPAGES && w in r.spaces[d].ptes ==> KeptPage(m, r, d, w))
    && (forall w :: w >= UPAGES && w in r.spaces[d].ptes ==> r.spaces[d].ptes[w] == m.spaces[d].ptes[w])
  }

  predicate Unmapped(m: Mem, d: nat, v: nat, end: nat) { forall w :: v <= w < end ==> !Mapped(m, d, w) }

  /** The source of a copy is another directory, with all its pages there. */
  predicate SourceOk(m: Mem, d: nat, src: Source, v: nat, end: nat) {
    src.CopyOf? ==> src.dir != d && forall w :: v <= w < end ==> Mapped(m, src.dir, w)
  }

  lemma ContentIsPage(m: Mem, d: nat, src: Source, v: nat, end: nat)
    requires MemOk(m) && SourceOk(m, d, src, v, end) && v < end <= UPAGES
    ensures |Content(m, src, v)| == PGSIZE
  {
    if src.CopyOf? {
      assert Mapped(m, src.dir, v);
      PageFrame(m, src.dir, v);
    }
  }

  lemma SameContent(m: Mem, r: Mem, d: nat, src: Source, v: nat, end: nat, w: nat)
    requires Sole(m, r, d) && SourceOk(m, d, src, v, end) && v <= w < end <= UPAGES
    ensures Content(r, src, w) == Content(m, src, w) && SourceOk(r, d, src, v, end)
  {
    if src.CopyOf? {
      assert Mapped(m, src.dir, w);
      assert Untouched(m, r, src.dir);
      assert forall u :: v <= u < end && Mapped(m, src.dir, u) ==> Mapped(r, src.dir, u);
    }
  }

  lemma GrownNone(m: Mem, d: nat, v: nat, src: Source)
    requires Ready(m, d)
    ensures Grown(m, m, d, v, v, src)
  {}

  lemma KeptTwice(a: Mem, b: Mem, c: Mem, d: nat, v: nat)
    requires KeptPage(a, b, d, v) && KeptPage(b, c, d, v)
    ensures KeptPage(a, c, d, v)
  {}

  lemma KeptBytes(m: Mem, r: Mem, d: nat, v: nat)
    requires KeptPage(m, r, d, v)
    ensures PageBytes(r, d, v) == PageBytes(m, d, v)
  {}

  lemma GrownMore(m: Mem, a: Mem, r: Mem, d: nat, v: nat, k: nat, end: nat, src: Source)
    requires MemOk(m) && m.free != [] && Ready(m, d) && v !in m.spaces[d].ptes && v < k <= end <= UPAGES
    requires SourceOk(m, d, src, v, end) && a == AddPage(m, d, v, Content(m, src, v)) && Grown(a, r, d, v + 1, k, src)
    ensures Grown(m, r, d, v, k, src)
  {
    hide AddPage, MemOk, Untouched, KeptPage, PageBytes, Content, SourceOk, SameKernel, Sole;
    AddPageEffect(m, d, v, Content(m, src, v));
    SoleTwice(m, a, r, d);
    forall w | v < w < k ensures PageBytes(r, d, w) == Content(m, src, w) {
      SameContent(m, a, d, src, v, end, w);
    }
    KeptBytes(a, r, d, v);
    forall w | w < UPAGES && w in m.spaces[d].ptes ensures KeptPage(m, r, d, w) {
      KeptTwice(m, a, r, d, w);
    }
  }

  lemma AddPageNext(m: Mem, d: nat, v: nat, end: nat, src: Source)
    requires MemOk(m) && m.free != [] && Ready(m, d) && v < end <= UPAGES && Unmapped(m, d, v, end) && SourceOk(m, d, src, v, end)
    ensures v !in m.spaces[d].ptes
    ensures var a := AddPage(m, d, v, Content(m, src, v));
            && MemOk(a) && Ready(a, d) && Unmapped(a, d, v + 1, end) && SourceOk(a, d, src, v + 1, end)
            && |a.free| == |m.free| - 1
  {
    assert !Mapped(m, d, v);
    ContentIsPage(m, d, src, v, end);
    AddPageKeeps(m, d, v, Content(m, src, v));
    AddPageEffect(m, d, v, Content(m, src, v));
    hide AddPage, MemOk, Content, Untouched;
    NextSource(m, AddPage(m, d, v, Content(m, src, v)), d, src, v, end);
  }

  /** The pages are added in order until there are no frames left; all of them if enough are. */
  lemma {:induction false} AddPagesGrow(m: Mem, d: nat, v: nat, end: nat, src: Source) returns (k: nat)
    requires MemOk(m) && Ready(m, d) && v <= end <= UPAGES && Unmapped(m, d, v, end) && SourceOk(m, d, src, v, end)
    ensures var (r, ok) := AddPages(m, d, v, end, src);
            && v <= k <= end && MemOk(r) && Grown(m, r, d, v, k, src)
            && (ok <==> k == end) && (ok <==> end - v <= |m.free|) && |r.free| == |m.free| - (k - v)
    decreases end - v
  {
    hide AddPage, MemOk, Content, Grown, Unmapped, SourceOk;
    if v == end || m.free == [] {
      GrownNone(m, d, v, src);
      k := v;
    } else {
      var a := AddPage(m, d, v, Content(m, src, v));
      AddPageNext(m, d, v, end, src);
      k := AddPagesGrow(a, d, v + 1, end, src);
      GrownMore(m, a, AddPages(a, d, v + 1, end, src).0, d, v, k, end, src);
    }
  }

  lemma NextSource(m: Mem, a: Mem, d: nat, src: Source, v: nat, end: nat)
    requires Sole(m, a, d) && SourceOk(m, d, src, v, end) && v < end <= UPAGES
    ensures SourceOk(a, d, src, v + 1, end)
  {
    SameContent(m, a, d, src, v, end, v);
  }

  lemma ShrunkMore(m: Mem, a: Mem, r: Mem, d: nat, v: nat, end: nat)
    requires MemOk(m) && v < end <= UPAGES && Mapped(m, d, v)
    requires a == DropPage(m, d, v) && d in a.spaces && Shrunk(a, r, d, v + 1, end)
    ensures Shrunk(m, r, d, v, end)
  {
    hide DropPage, MemOk, Untouched, KeptPage, PageBytes, SameKernel, Sole;
    DropPageEffect(m, d, v);
    SoleTwice(m, a, r, d);
    forall w | w < UPAGES && w in r.spaces[d].ptes ensures KeptPage(m, r, d, w) {
      KeptTwice(m, a, r, d, w);
    }
  }

  lemma ShrunkNone(m: Mem, d: nat, v: nat)
    requires d in m.spaces
    ensures Shrunk(m, m, d, v, v)
  {}

  lemma ShrunkSkip(m: Mem, r: Mem, d: nat, v: nat, end: nat)
    requires d in m.spaces && v !in m.spaces[d].ptes && Shrunk(m, r, d, v + 1, end)
    ensures Shrunk(m, r, d, v, end)
  {
    hide Sole, KeptPage;
  }

  lemma {:induction false} DropPagesShrink(m: Mem, d: nat, v: nat, end: nat)
    requires MemOk(m) && d in m.spaces && v <= end <= UPAGES
    ensures MemOk(DropPages(m, d, v, end)) && Shrunk(m, DropPages(m, d, v, end), d, v, end)
    decreases end - v
  {
    hide DropPage, MemOk, Shrunk, Sole, KeptPage;
    if v == end {
      ShrunkNone(m, d, v);
    } else if v in m.spaces[d].ptes {
      DropPageKeeps(m, d, v);
      DropPageDir(m, d, v);
      DropPagesShrink(DropPage(m, d, v), d, v + 1, end);
      ShrunkMore(m, DropPage(m, d, v), DropPages(m, d, v, end), d, v, end);
    } else {
      DropPagesShrink(m, d, v + 1, end);
      ShrunkSkip(m, DropPages(m, d, v, end), d, v, end);
    }
  }

  lemma DropPageDir(m: Mem, d: nat, v: nat)
    requires d in m.spaces && v in m.spaces[d].ptes
    ensures d in DropPage(m, d, v).spaces
  {}

  // ----- allocuvm and deallocuvm

  /** PGROUNDUP, as a number of pages. */
  function Up(size: nat): nat { (size + PGSIZE - 1) / PGSIZE }

  function Allocuvm(m: Mem, d: nat, oldsz: nat, newsz: nat): (r: (Mem, nat))
    requires d in m.spaces
  {
    if newsz > USERTOP then (m, 0)
    else if newsz < oldsz then (m, oldsz)
    else
      var g := AddPages(m, d, Up(oldsz), Up(newsz), Zeros);
      if g.1 then (g.0, newsz) else (Deallocuvm(g.0, d, newsz, oldsz).0, 0)
  }

  function Deallocuvm(m: Mem, d: nat, oldsz: nat, newsz: nat): (r: (Mem, nat))
    requires d in m.spaces
  {
    if newsz >= oldsz then (m, oldsz) else (DropPages(m, d, Up(newsz), Up(oldsz)), newsz)
  }

  /** Growing and then shrinking back leaves the address space as it was. */
  lemma GrownShrunk(m: Mem, g: Mem, r: Mem, d: nat, v: nat, k: nat, end: nat, src: Source)
    requires Grown(m, g, d, v, k, src) && Shrunk(g, r, d, v, end) && k <= end <= UPAGES && Unmapped(m, d, v, end)
    ensures r.spaces == m.spaces && SameKernel(m, r) && Sole(m, r, d)
    ensures forall w: nat :: w < UPAGES && Mapped(m, d, w) ==> KeptPage(m, r, d, w)
  {
    SoleTwice(m, g, r, d);
    forall w | w in m.spaces[d].ptes ensures w in r.spaces[d].ptes && r.spaces[d].ptes[w] == m.spaces[d].ptes[w] {
      assert Mapped(m, d, w);
      if w < UPAGES {
        assert KeptPage(m, g, d, w) && KeptPage(g, r, d, w);
      }
    }
    forall w: nat | w < UPAGES && Mapped(m, d, w) ensures KeptPage(m, r, d, w) {
      assert KeptPage(m, g, d, w) && KeptPage(g, r, d, w);
    }
    assert r.spaces[d].ptes == m.spaces[d].ptes;
    assert r.spaces[d] == m.spaces[d];
    forall e | e in m.spaces ensures r.spaces[e] == m.spaces[e] {
      if e != d { assert Untouched(m, r, e); }
    }
  }

  /** allocuvm either adds exactly the zeroed pages between the sizes, or returns 0, and then
      every address space and the set of free frames are what they were. It fails only for
      want of frames or above USERTOP. */
  lemma AllocuvmGrowsOrRestores(m: Mem, d: nat, oldsz: nat, newsz: nat)
    requires MemOk(m) && Ready(m, d) && oldsz <= newsz && 0 < newsz
    requires newsz <= USERTOP ==> Unmapped(m, d, Up(oldsz), Up(newsz))
    ensures var (r, ret) := Allocuvm(m, d, oldsz, newsz);
            && MemOk(r) && (ret == newsz || ret == 0)
            && (ret == newsz <==> newsz <= USERTOP && Up(newsz) - Up(oldsz) <= |m.free|)
            && (ret == newsz ==> Grown(m, r, d, Up(oldsz), Up(newsz), Zeros))
            && (ret == 0 ==> && r.spaces == m.spaces && FreeSet(r) == FreeSet(m) && SameKernel(m, r) && Sole(m, r, d)
                             && forall w: nat :: w < UPAGES && Mapped(m, d, w) ==> KeptPage(m, r, d, w))
  {
    if newsz <= USERTOP {
      assert Up(oldsz) <= Up(newsz) <= UPAGES;
      var (v, end) := (Up(oldsz), Up(newsz));
      hide MemOk, Up;
      var k := AddPagesGrow(m, d, v, end, Zeros);
      var (g, ok) := AddPages(m, d, v, end, Zeros);
      if !ok {
        DropPagesShrink(g, d, v, end);
        var r := DropPages(g, d, v, end);
        assert Allocuvm(m, d, oldsz, newsz) == (r, 0) by { SmallerUp(oldsz, newsz); }
        GrownShrunk(m, g, r, d, v, k, end, Zeros);
        SameSpacesSameFree(m, r);
      }
    } else {
      assert forall w: nat :: w < UPAGES && Mapped(m, d, w) ==> KeptPage(m, m, d, w);
    }
  }

  lemma SmallerUp(a: nat, b: nat)
    ensures Up(a) < Up(b) ==> a < b
  {}

  lemma DeallocuvmShrinks(m: Mem, d: nat, oldsz: nat, newsz: nat)
    requires MemOk(m) && d in m.spaces && newsz < oldsz <= USERTOP
    ensures var (r, ret) := Deallocuvm(m, d, oldsz, newsz);
            ret == newsz && MemOk(r) && Shrunk(m, r, d, Up(newsz), Up(oldsz))
  {
    assert Up(newsz) <= Up(oldsz) <= UPAGES;
    hide MemOk, Up;
    DropPagesShrink(m, d, Up(newsz), Up(oldsz));
  }

  // ----- freevm

  /** The loop over the page directory in freevm. */
  function DropTables(m: Mem, d: nat, x: nat): (r: Mem)
    requires d in m.spaces
    decreases NENTRIES - x
  {
    if x >= NENTRIES then m else DropTables(if x in m.spaces[d].tables then DropTable(m, d, x) else m, d, x + 1)
  }

  function Freevm(m: Mem, d: nat): Mem
    requires d in m.spaces
  {
    DropDir(DropTables(DropPages(m, d, 0, UPAGES), d, 0), d)
  }

  /** No directory but d has changed, and d has no user page. */
  ghost predicate Emptied(m: Mem, d: nat, x: nat) {
    && MemOk(m) && d in m.spaces && (forall v :: v in m.spaces[d].ptes ==> v >= UPAGES)
    && (forall y :: y in m.spaces[d].tables ==> y >= x)
  }

  lemma DropTableEffect(m: Mem, d: nat, x: nat)
    requires Emptied(m, d, x) && x in m.spaces[d].tables
    ensures var r := DropTable(m, d, x); Sole(m, r, d) && Emptied(r, d, x + 1)
  {
    DropTableKeeps(m, d, x);
    DirAt(m, d);
    var (r, g) := (DropTable(m, d, x), m.spaces[d].tables[x]);
    FrameAt(m, g);
    forall e: nat, w: nat | w < UPAGES && Mapped(m, e, w) ensures PageBytes(r, e, w) == PageBytes(m, e, w) {
      PageFrame(m, e, w);
    }
  }

  lemma {:induction false} DropTablesEmpty(m: Mem, d: nat, x: nat)
    requires Emptied(m, d, x) && x <= NENTRIES
    ensures var r := DropTables(m, d, x);
            Sole(m, r, d) && MemOk(r) && d in r.spaces && r.spaces[d].tables == map[] && r.spaces[d].ptes == map[]
    decreases NENTRIES - x
  {
    hide DropTable, MemOk, Sole, Emptied;
    EmptiedDir(m, d, x);
    if x == NENTRIES {
      NothingLeft(m, d);
      SoleNone(m, d);
    } else if x in m.spaces[d].tables {
      DropTableEffect(m, d, x);
      DropTablesEmpty(DropTable(m, d, x), d, x + 1);
      EmptiedDir(DropTable(m, d, x), d, x + 1);
      SoleTwice(m, DropTable(m, d, x), DropTables(m, d, x), d);
    } else {
      EmptiedMore(m, d, x);
      DropTablesEmpty(m, d, x + 1);
    }
  }

  lemma EmptiedDir(m: Mem, d: nat, x: nat)
    requires Emptied(m, d, x)
    ensures MemOk(m) && d in m.spaces
  {}

  lemma EmptiedMore(m: Mem, d: nat, x: nat)
    requires Emptied(m, d, x) && d in m.spaces && x !in m.spaces[d].tables
    ensures Emptied(m, d, x + 1)
  {}

  lemma SoleNone(m: Mem, d: nat)
    ensures Sole(m, m, d)
  {}

  lemma NothingLeft(m: Mem, d: nat)
    requires Emptied(m, d, NENTRIES)
    ensures m.spaces[d].tables == map[] && m.spaces[d].ptes == map[]
  {
    DirAt(m, d);
    assert forall x :: x !in m.spaces[d].tables;
    assert forall v :: v in m.spaces[d].ptes ==> EntryOk(m, d, v);
    assert forall v :: v !in m.spaces[d].ptes;
  }

  lemma DropDirEffect(m: Mem, d: nat)
    requires MemOk(m) && d in m.spaces
    ensures var r := DropDir(m, d);
            && SameKernel(m, r) && r.spaces == m.spaces - {d}
            && forall e :: e in m.spaces && e != d ==> Untouched(m, r, e)
  {
    DirAt(m, d);
    var r := DropDir(m, d);
    forall e: nat, w: nat | w < UPAGES && Mapped(m, e, w) && e != d ensures PageBytes(r, e, w) == PageBytes(m, e, w) {
      PageFrame(m, e, w);
    }
  }

  /** freevm gives back exactly the frames the directory owned, and touches nothing else. */
  lemma FreevmReturnsOwned(m: Mem, d: nat)
    requires MemOk(m) && d in m.spaces
    ensures var r := Freevm(m, d);
            && MemOk(r) && SameKernel(m, r) && r.spaces == m.spaces - {d}
            && FreeSet(r) == FreeSet(m) + Owned(m, d)
            && forall e :: e in m.spaces && e != d ==> Untouched(m, r, e)
  {
    hide MemOk, DropPages, DropTables, DropDir, Untouched, Owned, FreeSet;
    DropPagesShrink(m, d, 0, UPAGES);
    var a := DropPages(m, d, 0, UPAGES);
    DropTablesEmpty(a, d, 0);
    var b := DropTables(a, d, 0);
    SoleTwice(m, a, b, d);
    DropDirKeeps(b, d);
    DropDirEffect(b, d);
    var r := DropDir(b, d);
    forall e | e in m.spaces && e != d ensures Untouched(m, r, e) && r.spaces[e] == m.spaces[e] {
      UntouchedTwice(m, b, r, e);
    }
    assert r.spaces == m.spaces - {d};
    GoneIsFree(m, r, d);
  }

  lemma UntouchedTwice(a: Mem, b: Mem, c: Mem, e: nat)
    requires Untouched(a, b, e) && Untouched(b, c, e)
    ensures Untouched(a, c, e) && c.spaces[e] == a.spaces[e]
  {}
}
