/** How the kernel checks and reaches user memory on behalf of system calls. */
module VmAccess {
  import opened Basics
  import opened VmSpec
  import opened VmRange
  import opened VmCopy
  import opened VmLayout

  // ----- the checks on system call arguments

  /** fetchint's test of an address, in unsigned 32-bit arithmetic. */
  predicate FetchintAccepts(im: Image, addr: nat) {
    && !((addr >= im.sz || Wrap(addr + 4) > im.sz) && addr < Wrap(Bottom(im)))
    && !(addr >= USERTOP || Wrap(addr + 4) > USERTOP || addr < BASE)
  }

  /** argptr's test of a pointer and a signed size. */
  predicate ArgptrAccepts(im: Image, i: nat, size: int) {
    && !(i >= USERTOP || Wrap(i + size) > USERTOP || i < BASE)
    && !((i >= im.sz || Wrap(i + size) > im.sz) && i < Wrap(Bottom(im)))
  }

  /** fetchstr's test of the start of a string. */
  predicate FetchstrAccepts(im: Image, addr: nat) {
    !(addr >= USERTOP || addr < BASE) && !(addr >= im.sz && addr < Wrap(Bottom(im)))
  }

  /** The range from a up to b, with a inside, lies in the program and heap or in the stack. */
  predicate InUser(im: Image, a: int, b: int) {
    (BASE <= a < im.sz && b <= im.sz) || (Bottom(im) <= a < USERTOP && b <= USERTOP)
  }

  /** fetchint accepts exactly the addresses of words inside user memory. */
  lemma FetchintExact(im: Image, addr: nat)
    requires Shape(im) && addr < U32
    ensures FetchintAccepts(im, addr) <==>
              0x2000 <= addr <= im.sz - 4 || 0xA_0000 - 0x1000 * im.stack <= addr <= 0xA_0000 - 4
  {
    ShapeBounds(im);
    WrapIs(Bottom(im));
    if addr < USERTOP {
      WrapIs(addr + 4);
    }
  }

  /** For sizes that are not negative, argptr accepts exactly the ranges inside user memory;
      for negative ones, exactly the starts inside user memory that the sum does not take
      below address 0. */
  lemma ArgptrExact(im: Image, i: nat, size: int)
    requires Shape(im) && i < U32 && Int32(size)
    ensures size >= 0 ==> (ArgptrAccepts(im, i, size) <==> InUser(im, i, i + size))
    ensures InUser(im, i, i + size) <==> || (0x2000 <= i < im.sz && i + size <= im.sz)
                                         || (0xA_0000 - 0x1000 * im.stack <= i < 0xA_0000 && i + size <= 0xA_0000)
    ensures size < 0 ==> (ArgptrAccepts(im, i, size) <==> InUser(im, i, i) && i + size >= 0)
  {
    ShapeBounds(im);
    WrapIs(Bottom(im));
    if i < USERTOP {
      WrapIs(i + size);
    }
  }

  /** With a size of -0x3000, argptr accepts a pointer into the heap whose range ends at 0x1000,
      where nothing is the process's. */
  lemma ArgptrAcceptsNegative(im: Image, x: nat)
    requires im.sz == 0x5000 && im.stack == 1 && 0x1000 <= x < BASE
    ensures Shape(im) && ArgptrAccepts(im, 0x4000, -0x3000) && !InUser(im, x, x + 1)
  {
    ArgptrExact(im, 0x4000, -0x3000);
  }

  /** Every byte of such a range is on a mapped user page. */
  lemma InUserIsMapped(m: Mem, im: Image, a: nat, b: nat, x: nat)
    requires MemOk(m) && Layout(m, im) && InUser(im, a, b) && a <= x < b
    ensures x < USERTOP && Mapped(m, im.dir, x / PGSIZE)
    ensures var e := m.spaces[im.dir].ptes[x / PGSIZE]; e.user && e.writable
  {
    ShapeBounds(im);
    var v := x / PGSIZE;
    assert PGSIZE * v <= x < PGSIZE * v + PGSIZE;
    assert v < UPAGES && InLayout(v, im.sz, im.stack);
    PagesAt(m, im, v);
    DirAt(m, im.dir);
    assert EntryOk(m, im.dir, v);
  }

  /** What argptr accepts the kernel can use: every byte is there. */
  lemma ArgptrIsMapped(m: Mem, im: Image, i: nat, size: int, x: nat)
    requires MemOk(m) && Layout(m, im) && i < U32 && Int32(size) && size >= 0 && ArgptrAccepts(im, i, size) && i <= x < i + size
    ensures Mapped(m, im.dir, x / PGSIZE)
    ensures var e := m.spaces[im.dir].ptes[x / PGSIZE]; e.user && e.writable
  {
    ArgptrExact(im, i, size);
    InUserIsMapped(m, im, i, i + size, x);
  }

  lemma FetchintIsMapped(m: Mem, im: Image, addr: nat, x: nat)
    requires MemOk(m) && Layout(m, im) && addr < U32 && FetchintAccepts(im, addr) && addr <= x < addr + 4
    ensures Mapped(m, im.dir, x / PGSIZE)
    ensures var e := m.spaces[im.dir].ptes[x / PGSIZE]; e.user && e.writable
  {
    FetchintExact(im, addr);
    InUserIsMapped(m, im, addr, addr + 4, x);
  }

  // ----- user memory as bytes

  /** The byte at a user address. */
  function ByteAt(m: Mem, d: nat, x: nat): byte {
    var page := PageBytes(m, d, x / PGSIZE);
    if x % PGSIZE < |page| then page[x % PGSIZE] else 0
  }

  /** After growproc, every byte from the old end's page up to the new size reads 0. */
  lemma GrownReadsZero(m: Mem, im: Image, n: int, x: nat)
    requires MemOk(m) && Layout(m, im) && 0 < n && Int32(n) && im.dir in m.spaces && Growproc(m, im, n).2
    requires x < im.sz + n && PGSIZE * (x / PGSIZE) >= im.sz
    ensures ByteAt(Growproc(m, im, n).0, im.dir, x) == 0
  {
    hide MemOk, Layout, Growproc, PageBytes, Sole;
    GrowprocUp(m, im, n);
    ShapeOf(m, im);
    PageOf(x, im.sz, im.sz + n);
    assert PageBytes(Growproc(m, im, n).0, im.dir, x / PGSIZE) == Fill(0);
  }

  lemma ShapeOf(m: Mem, im: Image)
    requires Layout(m, im)
    ensures Shape(im)
  {}

  lemma PageOf(x: nat, a: nat, b: nat)
    requires x < b && PGSIZE * (x / PGSIZE) >= a
    ensures Up(a) <= x / PGSIZE < Up(b)
  {}

  /** After a fork, every byte of the child's heap and stack reads as the parent's. */
  lemma ForkReadsTheSame(m: Mem, im: Image, data: nat, x: nat)
    requires MemOk(m) && Layout(m, im) && DataOk(data) && im.stack <= UPAGES && Fork(m, im, data).1.Child? && InUser(im, x, x + 1)
    ensures var (r, c) := Fork(m, im, data); ByteAt(r, c.im.dir, x) == ByteAt(m, im.dir, x)
  {
    hide MemOk, Layout, Fork, PageBytes, AllUntouched;
    ForkCopies(m, im, data);
    ShapeOf(m, im);
    InUserPage(im, x);
  }

  lemma InUserPage(im: Image, x: nat)
    requires Shape(im) && InUser(im, x, x + 1)
    ensures x / PGSIZE < UPAGES && InLayout(x / PGSIZE, im.sz, im.stack)
  {
    ShapeBounds(im);
  }

  /** Where fetchstr stops looking: the end of the region the string starts in. */
  function StringEnd(im: Image, addr: nat): nat { if addr < im.sz then im.sz else USERTOP }

  /** fetchstr accepts exactly the starts inside the heap or the stack, and looks no further than
      the end of that one of them. */
  lemma FetchstrExact(im: Image, addr: nat)
    requires Shape(im) && addr < U32
    ensures FetchstrAccepts(im, addr) <==> 0x2000 <= addr < im.sz || 0xA_0000 - 0x1000 * im.stack <= addr < 0xA_0000
    ensures FetchstrAccepts(im, addr) ==> StringEnd(im, addr) == if addr < im.sz then im.sz else 0xA_0000
  {
    ShapeBounds(im);
    WrapIs(Bottom(im));
  }

  /** fetchstr looks only at mapped user pages. */
  lemma FetchstrIsMapped(m: Mem, im: Image, addr: nat, x: nat)
    requires MemOk(m) && Layout(m, im) && addr < U32 && FetchstrAccepts(im, addr) && addr <= x < StringEnd(im, addr)
    ensures x < USERTOP && Mapped(m, im.dir, x / PGSIZE) && m.spaces[im.dir].ptes[x / PGSIZE].user
  {
    ShapeBounds(im);
    WrapIs(Bottom(im));
    InUserIsMapped(m, im, addr, StringEnd(im, addr), x);
  }

  /** The first NUL from x on and before end. */
  function FirstNul(m: Mem, d: nat, x: nat, end: nat): (r: int)
    ensures r == -1 || (x <= r < end && ByteAt(m, d, r) == 0)
    ensures forall y :: x <= y < end && (r == -1 || y < r) ==> ByteAt(m, d, y) != 0
    decreases end - x
  {
    if x >= end then -1 else if ByteAt(m, d, x) == 0 then x else FirstNul(m, d, x + 1, end)
  }

  // ----- copyout

  predicate UserPage(m: Mem, d: nat, v: nat) { Mapped(m, d, v) && m.spaces[d].ptes[v].user }

  function Splice(page: Bytes, off: nat, bytes: Bytes): (r: Bytes)
    requires off + |bytes| <= |page|
    ensures |r| == |page|
    ensures forall i :: 0 <= i < |page| ==> r[i] == if off <= i < off + |bytes| then bytes[i - off] else page[i]
  {
    page[..off] + bytes + page[off + |bytes|..]
  }

  /** The part of the bytes that goes to the page of va. */
  function Chunk(va: nat, bytes: Bytes): (n: nat)
    ensures n <= |bytes| && va % PGSIZE + n <= PGSIZE && (bytes != [] ==> n > 0)
    ensures n < |bytes| ==> va + n == PGSIZE * (va / PGSIZE + 1)
  {
    if PGSIZE - va % PGSIZE > |bytes| then |bytes| else PGSIZE - va % PGSIZE
  }

  function Poke(m: Mem, d: nat, va: nat, bytes: Bytes): Mem
    requires Mapped(m, d, va / PGSIZE)
  {
    var f := m.spaces[d].ptes[va / PGSIZE].frame;
    if f in m.data && va % PGSIZE + |bytes| <= |m.data[f]| then m.(data := m.data[f := Splice(m.data[f], va % PGSIZE, bytes)]) else m
  }

  /** uva2ka follows a missing page table without looking. */
  predicate HasTable(sp: Space, v: nat) { v / NENTRIES in sp.tables }

  datatype Outcome = Copied | Refused | Faulted

  /** How copyout ends at page v. */
  function Stops(m: Mem, d: nat, v: nat): Outcome
    requires d in m.spaces
  {
    if HasTable(m.spaces[d], v) then Refused else Faulted
  }

  function Copyout(m: Mem, d: nat, va: nat, bytes: Bytes): (r: (Mem, Outcome))
    requires d in m.spaces
    decreases |bytes|
  {
    if bytes == [] then (m, Copied)
    else if !UserPage(m, d, va / PGSIZE) then (m, Stops(m, d, va / PGSIZE))
    else
      var n := Chunk(va, bytes);
      Copyout(Poke(m, d, va, bytes[..n]), d, PGSIZE * (va / PGSIZE + 1), bytes[n..])
  }

  /** Only bytes of d's user pages may differ. */
  ghost predicate SameButData(m: Mem, r: Mem, d: nat) {
    && MemOk(r) && r == m.(data := r.data)
    && forall e :: e in m.spaces && e != d ==> Untouched(m, r, e)
  }

  lemma UserPageBelow(m: Mem, d: nat, v: nat)
    requires MemOk(m) && UserPage(m, d, v)
    ensures v < UPAGES
  {
    DirAt(m, d);
    assert EntryOk(m, d, v);
  }

  lemma PokeKeeps(m: Mem, d: nat, va: nat, bytes: Bytes)
    requires MemOk(m) && UserPage(m, d, va / PGSIZE) && va % PGSIZE + |bytes| <= PGSIZE
    ensures SameButData(m, Poke(m, d, va, bytes), d)
    ensures forall w: nat :: w != va / PGSIZE && w < UPAGES && Mapped(m, d, w) ==> PageBytes(Poke(m, d, va, bytes), d, w) == PageBytes(m, d, w)
    ensures |PageBytes(m, d, va / PGSIZE)| == PGSIZE
    ensures PageBytes(Poke(m, d, va, bytes), d, va / PGSIZE) == Splice(PageBytes(m, d, va / PGSIZE), va % PGSIZE, bytes)
  {
    UserPageBelow(m, d, va / PGSIZE);
    PageFrame(m, d, va / PGSIZE);
    var r := Poke(m, d, va, bytes);
    assert FreeOk(r) && NoneLost(r) by { SameFree(m, r); }
    forall f | f in r.use ensures FrameOk(r, f) { FrameAt(m, f); }
    forall e | e in r.spaces ensures DirOk(r, e) { DirAt(m, e); }
    forall e: nat, w: nat | w < UPAGES && Mapped(m, e, w) && (e != d || w != va / PGSIZE)
      ensures PageBytes(r, e, w) == PageBytes(m, e, w)
    {
      PageFrame(m, e, w);
    }
  }

  lemma ByteFromPage(m: Mem, r: Mem, d: nat, x: nat)
    requires PageBytes(r, d, x / PGSIZE) == PageBytes(m, d, x / PGSIZE)
    ensures ByteAt(r, d, x) == ByteAt(m, d, x)
  {}

  /** One page's part of copyout. */
  lemma PokeBytes(m: Mem, d: nat, va: nat, bytes: Bytes, x: nat)
    requires MemOk(m) && UserPage(m, d, va / PGSIZE) && va % PGSIZE + |bytes| <= PGSIZE
    requires UserPage(m, d, x / PGSIZE)
    ensures ByteAt(Poke(m, d, va, bytes), d, x) == if va <= x < va + |bytes| then bytes[x - va] else ByteAt(m, d, x)
  {
    hide MemOk, Poke, PageBytes, Splice, SameButData;
    PokeKeeps(m, d, va, bytes);
    var v := va / PGSIZE;
    assert va == PGSIZE * v + va % PGSIZE;
    var w := x / PGSIZE;
    assert x == PGSIZE * w + x % PGSIZE;
    UserPageBelow(m, d, w);
    if w != v {
      ByteFromPage(m, Poke(m, d, va, bytes), d, x);
      assert w < v ==> PGSIZE * w + PGSIZE <= PGSIZE * v;
      assert v < w ==> PGSIZE * v + PGSIZE <= PGSIZE * w;
    }
  }

  lemma PokeSamePages(m: Mem, d: nat, va: nat, bytes: Bytes, w: nat)
    requires Mapped(m, d, va / PGSIZE)
    ensures UserPage(Poke(m, d, va, bytes), d, w) == UserPage(m, d, w)
  {}

  /** How far user pages reach from va, up to len bytes. */
  function Reach(m: Mem, d: nat, va: nat, len: nat): (n: nat)
    ensures n <= len && (n < len ==> !UserPage(m, d, (va + n) / PGSIZE))
    ensures forall x: nat :: va <= x < va + n ==> UserPage(m, d, x / PGSIZE)
    decreases len
  {
    if len == 0 || !UserPage(m, d, va / PGSIZE) then 0 else 1 + Reach(m, d, va + 1, len - 1)
  }

  /** That is known from the pages. */
  lemma ReachIs(m: Mem, d: nat, va: nat, len: nat, n: nat)
    requires n <= len && (n < len ==> !UserPage(m, d, (va + n) / PGSIZE))
    requires forall x: nat :: va <= x < va + n ==> UserPage(m, d, x / PGSIZE)
    ensures Reach(m, d, va, len) == n
  {
    hide UserPage;
    assert Reach(m, d, va, len) <= len;
  }

  lemma NextPage(m: Mem, d: nat, va: nat, bytes: Bytes)
    requires bytes != [] && UserPage(m, d, va / PGSIZE)
    ensures var n := Chunk(va, bytes);
            Reach(m, d, va, |bytes|) == n + Reach(m, d, PGSIZE * (va / PGSIZE + 1), |bytes| - n)
  {
    hide UserPage;
    var (n, next) := (Chunk(va, bytes), PGSIZE * (va / PGSIZE + 1));
    forall x: nat | va <= x < next ensures x / PGSIZE == va / PGSIZE {
      SamePage(va, x);
    }
    ReachIs(m, d, va, |bytes|, n + Reach(m, d, next, |bytes| - n));
  }

  lemma SamePage(va: nat, x: nat)
    requires va <= x < PGSIZE * (va / PGSIZE + 1)
    ensures x / PGSIZE == va / PGSIZE
  {}

  lemma SameReach(m: Mem, p: Mem, d: nat, va: nat, len: nat)
    requires p.spaces == m.spaces
    ensures Reach(p, d, va, len) == Reach(m, d, va, len)
  {
    assert forall v: nat :: UserPage(p, d, v) == UserPage(m, d, v);
    ReachIs(p, d, va, len, Reach(m, d, va, len));
  }

  /** Exactly the first n of the bytes are at va. */
  ghost predicate Written(m: Mem, r: Mem, d: nat, va: nat, bytes: Bytes, n: nat)
    requires n <= |bytes|
  {
    forall x: nat :: UserPage(m, d, x / PGSIZE) ==>
      ByteAt(r, d, x) == if va <= x < va + n then bytes[x - va] else ByteAt(m, d, x)
  }

  /** copyout writes exactly the bytes before the first page that is not a user page, and
      says whether these are all; others' memory is never touched. */
  lemma {:induction false} CopyoutWrites(m: Mem, d: nat, va: nat, bytes: Bytes)
    requires MemOk(m) && d in m.spaces
    ensures var (r, end) := Copyout(m, d, va, bytes);
            var n := Reach(m, d, va, |bytes|);
            && SameButData(m, r, d) && Written(m, r, d, va, bytes, n)
            && end == if n == |bytes| then Copied else Stops(m, d, (va + n) / PGSIZE)
    decreases |bytes|
  {
    hide MemOk, Poke, ByteAt, SameButData, UserPage, Written, Reach, Stops;
    if bytes == [] || !UserPage(m, d, va / PGSIZE) {
      NothingPoked(m, d);
      ReachIs(m, d, va, |bytes|, 0);
      NothingWritten(m, d, va, bytes);
    } else {
      var n := Chunk(va, bytes);
      UserMapped(m, d, va / PGSIZE);
      var (p, next) := (Poke(m, d, va, bytes[..n]), PGSIZE * (va / PGSIZE + 1));
      PokeKeeps(m, d, va, bytes[..n]);
      PokedOk(m, p, d);
      CopyoutWrites(p, d, next, bytes[n..]);
      var r := Copyout(p, d, next, bytes[n..]).0;
      PokedTwice(m, p, r, d);
      NextPage(m, d, va, bytes);
      SameReach(m, p, d, next, |bytes| - n);
      WrittenMore(m, r, d, va, bytes, n, Reach(m, d, next, |bytes| - n));
      SameStops(m, p, d);
    }
  }

  lemma SameStops(m: Mem, p: Mem, d: nat)
    requires d in m.spaces && p.spaces == m.spaces
    ensures forall v :: Stops(p, d, v) == Stops(m, d, v)
  {}

  lemma NothingWritten(m: Mem, d: nat, va: nat, bytes: Bytes)
    ensures Written(m, m, d, va, bytes, 0)
  {}

  lemma WrittenMore(m: Mem, r: Mem, d: nat, va: nat, bytes: Bytes, n: nat, k: nat)
    requires MemOk(m) && UserPage(m, d, va / PGSIZE) && n == Chunk(va, bytes) && n + k <= |bytes|
    requires Mapped(m, d, va / PGSIZE)
    requires Written(Poke(m, d, va, bytes[..n]), r, d, PGSIZE * (va / PGSIZE + 1), bytes[n..], k)
    ensures Written(m, r, d, va, bytes, n + k)
  {
    hide MemOk, Poke, ByteAt, UserPage;
    var (p, next) := (Poke(m, d, va, bytes[..n]), PGSIZE * (va / PGSIZE + 1));
    forall x: nat | UserPage(m, d, x / PGSIZE)
      ensures ByteAt(r, d, x) == if va <= x < va + n + k then bytes[x - va] else ByteAt(m, d, x)
    {
      PokeSamePages(m, d, va, bytes[..n], x / PGSIZE);
      PokeBytes(m, d, va, bytes[..n], x);
    }
  }

  lemma NothingPoked(m: Mem, d: nat)
    requires MemOk(m)
    ensures SameButData(m, m, d)
  {}

  lemma UserMapped(m: Mem, d: nat, v: nat)
    requires UserPage(m, d, v)
    ensures Mapped(m, d, v)
  {}

  lemma PokedOk(m: Mem, r: Mem, d: nat)
    requires SameButData(m, r, d)
    ensures MemOk(r) && r.spaces == m.spaces
  {}

  lemma PokedTwice(a: Mem, b: Mem, c: Mem, d: nat)
    requires SameButData(a, b, d) && SameButData(b, c, d)
    ensures SameButData(a, c, d)
  {
    forall e | e in a.spaces && e != d ensures Untouched(a, c, e) {
      assert Untouched(a, b, e);
      UntouchedTwice(a, b, c, e);
    }
  }
}
