/** Physical frames and address spaces.

    A page directory is named by its frame; its present entries lead from a directory index
    to the frame of a page table, and the present entries of all its tables are one map from
    page numbers. `use` says for every frame that is not free what it is used for. */
module VmSpec {
  import opened Basics

  type Bytes = seq<byte>

  const PGSIZE := 4096
  const USERTOP := 0xA_0000
  const UPAGES := 160
  const FRAMES := 4096
  const NENTRIES := 1024
  const U32 := 0x1_0000_0000

  datatype Pte = Pte(frame: nat, user: bool, writable: bool)

  datatype Space = Space(tables: map<nat, nat>, ptes: map<nat, Pte>)

  datatype Use = Dir | Table(dir: nat, pdx: nat) | Page(dir: nat, vpn: nat) | Kernel

  /** `low` is the first frame behind the kernel. */
  datatype Mem = Mem(low: nat, free: seq<nat>, spaces: map<nat, Space>, data: map<nat, Bytes>, use: map<nat, Use>)

  function Fill(b: byte): Bytes { seq(PGSIZE, _ => b) }

  // ----- the invariant of memory

  predicate Managed(m: Mem, f: nat) { m.low <= f < FRAMES }

  predicate IsUsed(m: Mem, f: nat, u: Use) { f in m.use && m.use[f] == u }

  predicate FreeOk(m: Mem) { NoDup(m.free) && forall f :: f in m.free ==> Managed(m, f) && f !in m.use }

  /** What a frame is said to be used for is what it is used for. */
  predicate FrameOk(m: Mem, f: nat)
    requires f in m.use
  {
    && Managed(m, f)
    && match m.use[f]
       case Dir => f in m.spaces
       case Table(d, x) => d in m.spaces && x in m.spaces[d].tables && m.spaces[d].tables[x] == f
       case Page(d, v) => && d in m.spaces && v < UPAGES && v in m.spaces[d].ptes && m.spaces[d].ptes[v].frame == f
                          && f in m.data && |m.data[f]| == PGSIZE
       case Kernel => true
  }

  /** A directory, its tables and its user pages have their frames to themselves; the user may
      write his pages; entries of kernel addresses are not for the user. */
  predicate DirOk(m: Mem, d: nat)
    requires d in m.spaces
  {
    && IsUsed(m, d, Dir)
    && (forall x :: x in m.spaces[d].tables ==> x < NENTRIES && IsUsed(m, m.spaces[d].tables[x], Table(d, x)))
    && (forall v :: v in m.spaces[d].ptes ==> EntryOk(m, d, v))
  }

  predicate EntryOk(m: Mem, d: nat, v: nat)
    requires d in m.spaces && v in m.spaces[d].ptes
  {
    && v / NENTRIES in m.spaces[d].tables
    && m.spaces[d].ptes[v].user == (v < UPAGES)
    && (v < UPAGES ==> m.spaces[d].ptes[v].writable && IsUsed(m, m.spaces[d].ptes[v].frame, Page(d, v)))
  }

  /** No frame is lost: each is free or used. */
  ghost predicate NoneLost(m: Mem) { forall f :: Managed(m, f) ==> f in m.free || f in m.use }

  ghost predicate MemOk(m: Mem) {
    && FreeOk(m) && NoneLost(m)
    && (forall f :: f in m.use ==> FrameOk(m, f))
    && (forall d :: d in m.spaces ==> DirOk(m, d))
  }

  /** The page table for all user addresses exists. */
  predicate Ready(m: Mem, d: nat) { d in m.spaces && 0 in m.spaces[d].tables }

  predicate Mapped(m: Mem, d: nat, v: nat) { d in m.spaces && v in m.spaces[d].ptes }

  /** The bytes of a mapped user page. */
  function PageBytes(m: Mem, d: nat, v: nat): Bytes {
    if Mapped(m, d, v) && m.spaces[d].ptes[v].frame in m.data then m.data[m.spaces[d].ptes[v].frame] else []
  }

  /** The frames of a directory: its own, its tables', and its user pages'. */
  ghost function Owned(m: Mem, d: nat): set<nat> {
    if d !in m.spaces then {} else
      {d} + (set x | x in m.spaces[d].tables :: m.spaces[d].tables[x])
      + (set v | v in m.spaces[d].ptes && v < UPAGES :: m.spaces[d].ptes[v].frame)
  }

  predicate BelongsTo(f: nat, u: Use, d: nat) {
    match u
    case Dir => f == d
    case Table(e, _) => e == d
    case Page(e, _) => e == d
    case Kernel => false
  }

  ghost function FreeSet(m: Mem): set<nat> { set f | f in m.free }

  // ----- single steps: one frame changes hands

  /** kalloc for a stated use. */
  function Take(m: Mem, u: Use): (r: Mem)
    requires m.free != []
  {
    m.(free := m.free[1..], use := m.use[m.free[0] := u])
  }

  /** kfree: the frame is filled with ones and becomes the head of the list. */
  function Give(m: Mem, f: nat): Mem {
    m.(free := [f] + m.free, use := m.use - {f}, data := m.data[f := Fill(1)])
  }

  function AddPage(m: Mem, d: nat, v: nat, bytes: Bytes): Mem
    requires m.free != [] && d in m.spaces
  {
    var f := m.free[0];
    var sp := m.spaces[d];
    Take(m, Page(d, v)).(spaces := m.spaces[d := sp.(ptes := sp.ptes[v := Pte(f, true, true)])], data := m.data[f := bytes])
  }

  function DropPage(m: Mem, d: nat, v: nat): Mem
    requires d in m.spaces && v in m.spaces[d].ptes
  {
    var sp := m.spaces[d];
    Give(m, sp.ptes[v].frame).(spaces := m.spaces[d := sp.(ptes := sp.ptes - {v})])
  }

  function AddTable(m: Mem, d: nat, x: nat): Mem
    requires m.free != [] && d in m.spaces
  {
    var sp := m.spaces[d];
    Take(m, Table(d, x)).(spaces := m.spaces[d := sp.(tables := sp.tables[x := m.free[0]])])
  }

  /** A freed table takes its entries along. */
  function DropTable(m: Mem, d: nat, x: nat): Mem
    requires d in m.spaces && x in m.spaces[d].tables
  {
    var sp := m.spaces[d];
    Give(m, sp.tables[x]).(spaces := m.spaces[d := Space(sp.tables - {x}, map v | v in sp.ptes && v / NENTRIES != x :: sp.ptes[v])])
  }

  function AddEntry(m: Mem, d: nat, v: nat, pte: Pte): Mem
    requires d in m.spaces
  {
    var sp := m.spaces[d];
    m.(spaces := m.spaces[d := sp.(ptes := sp.ptes[v := pte])])
  }

  function AddDir(m: Mem): Mem
    requires m.free != []
  {
    Take(m, Dir).(spaces := m.spaces[m.free[0] := Space(map[], map[])])
  }

  function DropDir(m: Mem, d: nat): Mem {
    Give(m, d).(spaces := m.spaces - {d})
  }

  // ----- each step keeps the invariant

  lemma HeadIsFree(m: Mem)
    requires MemOk(m) && m.free != []
    ensures Managed(m, m.free[0]) && m.free[0] !in m.use && m.free[0] !in m.free[1..] && m.free[0] !in m.spaces
    ensures NoDup(m.free[1..]) && forall f :: f in m.free <==> f == m.free[0] || f in m.free[1..]
  {
    var (h, t) := (m.free[0], m.free[1..]);
    assert m.free == [h] + t;
    assert forall i :: 0 <= i < |t| ==> t[i] == m.free[i + 1];
    assert h in m.free;
    assert h in m.spaces ==> DirOk(m, h);
  }

  lemma TakeFree(m: Mem, u: Use)
    requires MemOk(m) && m.free != []
    ensures var r := Take(m, u); FreeOk(r) && NoneLost(r)
  {
    HeadIsFree(m);
  }

  lemma GiveFree(m: Mem, f: nat)
    requires MemOk(m) && f in m.use
    ensures var r := Give(m, f); FreeOk(r) && NoneLost(r)
  {
    assert FrameOk(m, f);
    var r := Give(m, f);
    assert forall g :: g in r.free <==> g == f || g in m.free;
  }

  lemma FrameAt(m: Mem, f: nat)
    requires MemOk(m) && f in m.use
    ensures FrameOk(m, f)
  {}

  lemma DirAt(m: Mem, d: nat)
    requires MemOk(m) && d in m.spaces
    ensures DirOk(m, d)
  {}

  lemma AddPageKeeps(m: Mem, d: nat, v: nat, bytes: Bytes)
    requires MemOk(m) && m.free != [] && Ready(m, d) && v < UPAGES && v !in m.spaces[d].ptes && |bytes| == PGSIZE
    ensures MemOk(AddPage(m, d, v, bytes))
  {
    hide FreeOk, NoneLost;
    HeadIsFree(m);
    TakeFree(m, Page(d, v));
    var r := AddPage(m, d, v, bytes);
    assert FreeOk(r) && NoneLost(r) by { SameFree(Take(m, Page(d, v)), r); }
    forall f | f in r.use ensures FrameOk(r, f) {
      if f in m.use { FrameAt(m, f); }
    }
    forall e | e in r.spaces ensures DirOk(r, e) {
      DirAt(m, e);
    }
  }

  lemma SameFree(a: Mem, b: Mem)
    requires a.low == b.low && a.free == b.free && a.use == b.use && FreeOk(a) && NoneLost(a)
    ensures FreeOk(b) && NoneLost(b)
  {}

  lemma DropPageKeeps(m: Mem, d: nat, v: nat)
    requires MemOk(m) && v < UPAGES && Mapped(m, d, v)
    ensures MemOk(DropPage(m, d, v))
  {
    hide FreeOk, NoneLost;
    DirAt(m, d);
    var g := m.spaces[d].ptes[v].frame;
    GiveFree(m, g);
    var r := DropPage(m, d, v);
    assert FreeOk(r) && NoneLost(r) by { SameFree(Give(m, g), r); }
    forall f | f in r.use ensures FrameOk(r, f) {
      FrameAt(m, f);
    }
    forall e | e in r.spaces ensures DirOk(r, e) {
      DirAt(m, e);
    }
  }

  lemma AddTableKeeps(m: Mem, d: nat, x: nat)
    requires MemOk(m) && m.free != [] && d in m.spaces && x < NENTRIES && x !in m.spaces[d].tables
    ensures MemOk(AddTable(m, d, x))
  {
    hide FreeOk, NoneLost;
    HeadIsFree(m);
    TakeFree(m, Table(d, x));
    var r := AddTable(m, d, x);
    assert FreeOk(r) && NoneLost(r) by { SameFree(Take(m, Table(d, x)), r); }
    forall f | f in r.use ensures FrameOk(r, f) {
      if f in m.use { FrameAt(m, f); }
    }
    forall e | e in r.spaces ensures DirOk(r, e) {
      DirAt(m, e);
    }
  }

  lemma DropTableKeeps(m: Mem, d: nat, x: nat)
    requires MemOk(m) && d in m.spaces && x in m.spaces[d].tables
    requires forall v :: v in m.spaces[d].ptes ==> v >= UPAGES
    ensures MemOk(DropTable(m, d, x))
  {
    hide FreeOk, NoneLost;
    DirAt(m, d);
    var g := m.spaces[d].tables[x];
    GiveFree(m, g);
    var r := DropTable(m, d, x);
    assert FreeOk(r) && NoneLost(r) by { SameFree(Give(m, g), r); }
    forall f | f in r.use ensures FrameOk(r, f) {
      FrameAt(m, f);
    }
    forall e | e in r.spaces ensures DirOk(r, e) {
      DirAt(m, e);
    }
  }

  lemma AddEntryKeeps(m: Mem, d: nat, v: nat, pte: Pte)
    requires MemOk(m) && d in m.spaces && v / NENTRIES in m.spaces[d].tables && v >= UPAGES && !pte.user
    ensures MemOk(AddEntry(m, d, v, pte))
  {
    hide FreeOk, NoneLost;
    var r := AddEntry(m, d, v, pte);
    assert FreeOk(r) && NoneLost(r) by { SameFree(m, r); }
    forall f | f in r.use ensures FrameOk(r, f) {
      FrameAt(m, f);
    }
    forall e | e in r.spaces ensures DirOk(r, e) {
      DirAt(m, e);
    }
  }

  lemma AddDirKeeps(m: Mem)
    requires MemOk(m) && m.free != []
    ensures MemOk(AddDir(m))
  {
    hide FreeOk, NoneLost;
    HeadIsFree(m);
    TakeFree(m, Dir);
    var r := AddDir(m);
    assert FreeOk(r) && NoneLost(r) by { SameFree(Take(m, Dir), r); }
    forall f | f in r.use ensures FrameOk(r, f) {
      if f in m.use { FrameAt(m, f); }
    }
    forall e | e in r.spaces ensures DirOk(r, e) {
      if e in m.spaces { DirAt(m, e); }
    }
  }

  lemma DropDirKeeps(m: Mem, d: nat)
    requires MemOk(m) && d in m.spaces && m.spaces[d].tables == map[] && m.spaces[d].ptes == map[]
    ensures MemOk(DropDir(m, d))
  {
    hide FreeOk, NoneLost;
    DirAt(m, d);
    GiveFree(m, d);
    var r := DropDir(m, d);
    assert FreeOk(r) && NoneLost(r) by { SameFree(Give(m, d), r); }
    forall f | f in r.use ensures FrameOk(r, f) {
      FrameAt(m, f);
    }
    forall e | e in r.spaces ensures DirOk(r, e) {
      DirAt(m, e);
    }
  }

  // ----- conservation

  /** The frames used by the kernel itself. */
  ghost predicate SameKernel(m: Mem, r: Mem) {
    m.low == r.low && forall f :: IsUsed(m, f, Kernel) <==> IsUsed(r, f, Kernel)
  }

  /** The frames reached from a directory are those that are said to be its. */
  lemma OwnedWhen(m: Mem, d: nat, f: nat)
    requires MemOk(m) && d in m.spaces
    ensures f in Owned(m, d) <==> f in m.use && BelongsTo(f, m.use[f], d)
  {
    DirAt(m, d);
    if f in m.use { FrameAt(m, f); }
  }

  /** They are known from the directory. */
  lemma OwnedIs(m: Mem, r: Mem, d: nat)
    requires d in m.spaces && d in r.spaces && r.spaces[d].tables == m.spaces[d].tables
    requires forall v :: v < UPAGES ==> (v in m.spaces[d].ptes <==> v in r.spaces[d].ptes)
    requires forall v :: v < UPAGES && v in m.spaces[d].ptes ==> m.spaces[d].ptes[v].frame == r.spaces[d].ptes[v].frame
    ensures Owned(m, d) == Owned(r, d)
  {}

  /** Every frame in use belongs to a directory or to the kernel. */
  lemma UsedBy(m: Mem, f: nat)
    requires MemOk(m) && f in m.use
    ensures IsUsed(m, f, Kernel) || exists d :: d in m.spaces && f in Owned(m, d)
  {
    hide Owned, FreeOk, NoneLost;
    FrameAt(m, f);
    match m.use[f]
    case Dir => OwnedWhen(m, f, f);
    case Table(d, _) => OwnedWhen(m, d, f);
    case Page(d, _) => OwnedWhen(m, d, f);
    case Kernel =>
  }

  /** No frame is reached from two directories, and none of them is free or the kernel's. */
  lemma OwnedApart(m: Mem, d: nat, e: nat)
    requires MemOk(m)
    ensures d != e ==> Owned(m, d) !! Owned(m, e)
    ensures Owned(m, d) !! FreeSet(m) && forall f :: f in Owned(m, d) ==> f in m.use && m.use[f] != Kernel
  {
    hide Owned, NoneLost;
    if d in m.spaces {
      forall f | f in Owned(m, d) ensures f !in m.free && f in m.use && BelongsTo(f, m.use[f], d) {
        OwnedWhen(m, d, f);
      }
      if e in m.spaces && d != e {
        forall f | f in Owned(m, e) ensures f !in Owned(m, d) {
          OwnedWhen(m, d, f);
          OwnedWhen(m, e, f);
        }
      }
    }
    OwnedNone(m);
  }

  lemma OwnedNone(m: Mem)
    ensures forall d :: d !in m.spaces ==> Owned(m, d) == {}
  {}

  /** If the same address spaces are left, the same frames are free. */
  lemma SameSpacesSameFree(m: Mem, r: Mem)
    requires MemOk(m) && MemOk(r) && SameKernel(m, r) && r.spaces == m.spaces
    ensures FreeSet(r) == FreeSet(m)
  {
    forall f ensures f in r.free ==> f in m.free {
      if f in r.free && f !in m.free {
        SameSpacesFree(m, r, f);
      }
    }
    forall f ensures f in m.free ==> f in r.free {
      if f in m.free && f !in r.free {
        SameSpacesFree(r, m, f);
      }
    }
  }

  lemma SameSpacesFree(m: Mem, r: Mem, f: nat)
    requires MemOk(m) && MemOk(r) && SameKernel(m, r) && r.spaces == m.spaces && f in r.free
    ensures f in m.free
  {
    hide Owned;
    assert Managed(m, f);
    if f in m.use {
      UsedBy(m, f);
      if !IsUsed(m, f, Kernel) {
        var d :| d in m.spaces && f in Owned(m, d);
        OwnedIs(m, r, d);
        OwnedApart(r, d, d);
      }
    }
  }

  /** If one directory is gone and the others are left, exactly its frames became free. */
  lemma GoneIsFree(m: Mem, r: Mem, d: nat)
    requires MemOk(m) && MemOk(r) && SameKernel(m, r) && d in m.spaces && r.spaces == m.spaces - {d}
    ensures FreeSet(r) == FreeSet(m) + Owned(m, d)
  {
    hide Owned, FreeOk, NoneLost;
    forall f ensures f in r.free <==> f in m.free || f in Owned(m, d) {
      if f in r.free { FreedWas(m, r, d, f); }
      if f in m.free || f in Owned(m, d) { WasFreed(m, r, d, f); }
    }
  }

  lemma FreedWas(m: Mem, r: Mem, d: nat, f: nat)
    requires MemOk(m) && MemOk(r) && SameKernel(m, r) && d in m.spaces && r.spaces == m.spaces - {d}
    requires f in r.free
    ensures f in m.free || f in Owned(m, d)
  {
    hide Owned;
    assert Managed(m, f);
    if f in m.use {
      UsedBy(m, f);
      if !IsUsed(m, f, Kernel) {
        var e :| e in m.spaces && f in Owned(m, e);
        if e != d {
          OwnedIs(m, r, e);
          OwnedApart(r, e, e);
        }
      }
    }
  }

  lemma WasFreed(m: Mem, r: Mem, d: nat, f: nat)
    requires MemOk(m) && MemOk(r) && SameKernel(m, r) && d in m.spaces && r.spaces == m.spaces - {d}
    requires f in m.free || f in Owned(m, d)
    ensures f in r.free
  {
    hide Owned;
    OwnedApart(m, d, d);
    assert Managed(r, f) by { if f in m.use { FrameAt(m, f); } }
    if f in r.use {
      UsedBy(r, f);
      if !IsUsed(r, f, Kernel) {
        var e :| e in r.spaces && f in Owned(r, e);
        OwnedIs(m, r, e);
        OwnedApart(m, e, d);
      }
    }
  }
}
