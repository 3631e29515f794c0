/** Directories: files whose bytes are 16-byte entries, seen as a map from names
    to inode numbers. */
module DirStore {
  import opened Basics
  import opened FsState
  import opened FsMap
  import opened FileStore

  const DIRSIZ := 14
  const ENTRY := 16

  datatype LinkResult = Linked | Exists | LinkPanicked | LinkPastDisk

  /** A C string without its terminating NUL. */
  predicate IsName(name: seq<byte>) { forall k :: 0 <= k < |name| ==> name[k] != 0 }

  function CharAt(name: seq<byte>, k: nat): byte { if k < |name| then name[k] else 0 }

  // ----- comparing and storing names

  /** The fourteen bytes strncpy leaves for a name. */
  function Stored(name: seq<byte>): (b: seq<byte>)
    ensures |b| == DIRSIZ
  {
    seq(DIRSIZ, k requires 0 <= k < DIRSIZ => CharAt(name, k))
  }

  /** strncmp finds no difference in the first fourteen characters. */
  predicate SameName(name: seq<byte>, b: seq<byte>)
    requires |b| == DIRSIZ
  {
    forall k :: 0 <= k < DIRSIZ && k <= |name| ==> CharAt(name, k) == b[k]
  }

  /** Two names land on the same entry exactly when they agree in their first fourteen characters. */
  lemma SameNameStored(m: seq<byte>, name: seq<byte>)
    requires IsName(m) && IsName(name)
    ensures SameName(m, Stored(name)) <==> Stored(m) == Stored(name)
  {
    if SameName(m, Stored(name)) {
      forall k | 0 <= k < DIRSIZ ensures Stored(m)[k] == Stored(name)[k] {
        if |m| < k {
          assert CharAt(m, |m|) == Stored(name)[|m|] == CharAt(name, |m|);
        }
      }
    } else {
      var k :| 0 <= k < DIRSIZ && k <= |m| && CharAt(m, k) != Stored(name)[k];
      assert Stored(m)[k] != Stored(name)[k];
    }
  }

  method Namecmp(name: seq<byte>, b: seq<byte>) returns (same: bool)
    requires IsName(name) && |b| == DIRSIZ
    ensures same <==> SameName(name, b)
  {
    var k := 0;
    while k < DIRSIZ && CharAt(name, k) != 0 && CharAt(name, k) == b[k]
      invariant 0 <= k <= DIRSIZ && k <= |name|
      invariant forall j :: 0 <= j < k ==> CharAt(name, j) == b[j]
    {
      k := k + 1;
    }
    same := k == DIRSIZ || CharAt(name, k) == b[k];
  }

  method Strncpy(name: seq<byte>) returns (b: seq<byte>)
    requires IsName(name)
    ensures b == Stored(name)
  {
    b := [];
    while |b| < DIRSIZ && CharAt(name, |b|) != 0
      invariant |b| <= DIRSIZ && |b| <= |name| && b == Stored(name)[..|b|]
      decreases DIRSIZ - |b|
    {
      b := b + [CharAt(name, |b|)];
    }
    while |b| < DIRSIZ
      invariant |b| <= DIRSIZ && (|b| < DIRSIZ ==> |b| >= |name|) && b == Stored(name)[..|b|]
      decreases DIRSIZ - |b|
    {
      b := b + [0];
    }
  }

  // ----- entries of a directory file

  ghost predicate IsDir(fs: Fs, i: nat) {
    Inv(fs) && i < |fs.inodes| && fs.inodes[i].size % ENTRY == 0
  }

  function EntryInum(fs: Fs, i: nat, e: nat): nat
    requires Shape(fs) && i < |fs.inodes| && (e + 1) * ENTRY <= MAXFILE * BSIZE
  {
    var (lo: int, hi: int) := (FileByte(fs, i, e * ENTRY), FileByte(fs, i, e * ENTRY + 1));
    lo + 256 * hi
  }

  function EntryName(fs: Fs, i: nat, e: nat): (b: seq<byte>)
    requires Shape(fs) && i < |fs.inodes| && (e + 1) * ENTRY <= MAXFILE * BSIZE
    ensures |b| == DIRSIZ
  {
    seq<byte>(DIRSIZ, k requires 0 <= k < DIRSIZ => FileByte(fs, i, e * ENTRY + 2 + k))
  }

  /** Offset and inode number of the first entry from e on that carries the name. */
  ghost function Find(fs: Fs, i: nat, name: seq<byte>, e: nat): Option<(nat, nat)>
    requires IsDir(fs, i)
    decreases MAXFILE * BSIZE - e * ENTRY
  {
    if e * ENTRY >= fs.inodes[i].size then None else
      assert Sized(fs, i);
      if EntryInum(fs, i, e) != 0 && SameName(name, EntryName(fs, i, e)) then Some((e * ENTRY, EntryInum(fs, i, e)))
      else Find(fs, i, name, e + 1)
  }

  /** The inode number a directory gives for a name. */
  ghost function Lookup(fs: Fs, i: nat, name: seq<byte>): Option<nat>
    requires IsDir(fs, i)
  {
    match Find(fs, i, name, 0) case None => None case Some(p) => Some(p.1)
  }

  /** Entry e, sixteen bytes long: its inode number is not zero, and its next fourteen bytes agree
      with the name up to the name's end. */
  predicate Carries(fs: Fs, i: nat, name: seq<byte>, e: nat)
    requires Shape(fs) && i < |fs.inodes|
  {
    && 16 * e < fs.inodes[i].size && 16 * e + 16 <= 140 * 512
    && (FileByte(fs, i, 16 * e) != 0 || FileByte(fs, i, 16 * e + 1) != 0)
    && forall k :: 0 <= k < 14 && k <= |name| ==> CarriesAt(fs, i, name, e, k)
  }

  predicate CarriesAt(fs: Fs, i: nat, name: seq<byte>, e: nat, k: nat)
    requires Shape(fs) && i < |fs.inodes| && 16 * e + 16 <= 140 * 512 && k < 14
  {
    FileByte(fs, i, 16 * e + 2 + k) == if k < |name| then name[k] else 0
  }

  /** A search finds the first entry that carries the name, at sixteen times its number, with the
      little-endian inode number in it; and nothing exactly when no entry does. */
  lemma {:induction false} FindIs(fs: Fs, i: nat, name: seq<byte>, d: nat)
    requires IsDir(fs, i) && IsName(name)
    ensures Find(fs, i, name, d) == None <==> forall e :: d <= e ==> !Carries(fs, i, name, e)
    ensures forall r :: Find(fs, i, name, d) == Some(r) ==> FoundAt(fs, i, name, d, r)
    decreases MAXFILE * BSIZE - d * ENTRY
  {
    hide FileByte, Owned, FoundAt;
    if d * ENTRY < fs.inodes[i].size {
      assert Sized(fs, i);
      CarriesIs(fs, i, name, d);
      if !Carries(fs, i, name, d) {
        FindIs(fs, i, name, d + 1);
        if Find(fs, i, name, d + 1).Some? { FoundEarlier(fs, i, name, d, Find(fs, i, name, d + 1).value); }
      } else {
        FoundHere(fs, i, name, d);
      }
    }
  }

  predicate FoundAt(fs: Fs, i: nat, name: seq<byte>, d: nat, r: (nat, nat))
    requires Shape(fs) && i < |fs.inodes|
  {
    && 16 * d <= r.0 && r.0 % 16 == 0 && Carries(fs, i, name, r.0 / 16)
    && (forall e :: d <= e < r.0 / 16 ==> !Carries(fs, i, name, e))
    && var (lo: int, hi: int) := (FileByte(fs, i, r.0), FileByte(fs, i, r.0 + 1)); r.1 == lo + 256 * hi
  }

  lemma FoundHere(fs: Fs, i: nat, name: seq<byte>, d: nat)
    requires Shape(fs) && i < |fs.inodes| && Carries(fs, i, name, d)
    ensures FoundAt(fs, i, name, d, (d * ENTRY, EntryInum(fs, i, d)))
  {
    hide FileByte;
  }

  lemma FoundEarlier(fs: Fs, i: nat, name: seq<byte>, d: nat, r: (nat, nat))
    requires Shape(fs) && i < |fs.inodes| && FoundAt(fs, i, name, d + 1, r) && !Carries(fs, i, name, d)
    ensures FoundAt(fs, i, name, d, r)
  {
    hide Carries, FileByte;
  }

  lemma CarriesIs(fs: Fs, i: nat, name: seq<byte>, e: nat)
    requires Shape(fs) && i < |fs.inodes| && e * ENTRY < fs.inodes[i].size && (e + 1) * ENTRY <= MAXFILE * BSIZE
    ensures Carries(fs, i, name, e) <==> EntryInum(fs, i, e) != 0 && SameName(name, EntryName(fs, i, e))
  {
    hide FileByte;
    var b := EntryName(fs, i, e);
    forall k | 0 <= k < 14 ensures b[k] == FileByte(fs, i, 16 * e + 2 + k) {}
    if Carries(fs, i, name, e) {
      forall k | 0 <= k < DIRSIZ && k <= |name| ensures CharAt(name, k) == b[k] {
        assert CarriesAt(fs, i, name, e, k);
      }
    } else if EntryInum(fs, i, e) != 0 {
      var k :| 0 <= k < 14 && k <= |name| && !CarriesAt(fs, i, name, e, k);
      assert b[k] != CharAt(name, k);
    }
  }

  lemma PastEnd(fs: Fs, i: nat, e: nat)
    requires IsDir(fs, i) && e * ENTRY >= fs.inodes[i].size && (e + 1) * ENTRY <= MAXFILE * BSIZE
    ensures EntryInum(fs, i, e) == 0
  {
    hide FileByte;
    assert Sized(fs, i);
  }

  /** One entry of the search, also where the scan of a whole block runs past the end. */
  lemma FindStep(fs: Fs, i: nat, name: seq<byte>, e: nat)
    requires IsDir(fs, i) && (e + 1) * ENTRY <= MAXFILE * BSIZE
    ensures Find(fs, i, name, e)
         == if EntryInum(fs, i, e) != 0 && SameName(name, EntryName(fs, i, e)) then Some((e * ENTRY, EntryInum(fs, i, e)))
            else Find(fs, i, name, e + 1)
  {
    hide FileByte, EntryName, EntryInum, SameName;
    if e * ENTRY >= fs.inodes[i].size {
      PastEnd(fs, i, e);
    }
  }

  lemma FindEnd(fs: Fs, i: nat, name: seq<byte>, e: nat)
    requires IsDir(fs, i) && e * ENTRY >= fs.inodes[i].size
    ensures Find(fs, i, name, e) == None
  {}

  /** Searches a directory block by block; bytes past its end are zero, so they match nothing. */
  method Dirlookup(st: Store, i: nat, name: seq<byte>) returns (r: Option<(nat, nat)>)
    requires IsDir(st.State(), i) && IsName(name)
    modifies st`used, st`disk, st`inodes
    ensures st.State() == old(st.State())
    ensures r == Find(st.State(), i, name, 0)
  {
    hide Target, FileByte, Owned, EntryInum, EntryName, Find, SameName;
    ghost var fs, e := st.State(), 0;
    assert Sized(fs, i);
    var off := 0;
    while off < st.inodes[i].size
      invariant st.State() == fs && off % BSIZE == 0 && e * ENTRY == off
      invariant Find(fs, i, name, 0) == Find(fs, i, name, e)
      decreases MAXFILE * BSIZE - off
    {
      MapBlockOutcome(fs, i, off / BSIZE);
      var b := st.Bmap(i, off / BSIZE);
      ReadBytes(fs, i, off, BSIZE);
      var data := st.disk[b.addr];
      var d := 0;
      while d < BSIZE
        invariant 0 <= d <= BSIZE && d % ENTRY == 0 && st.State() == fs && e * ENTRY == off + d
        invariant Find(fs, i, name, 0) == Find(fs, i, name, e)
      {
        EntryBytes(fs, i, e, data, off, d);
        FindStep(fs, i, name, e);
        var (lo: int, hi: int) := (data[d], data[d + 1]);
        var inum := lo + 256 * hi;
        if inum != 0 {
          var same := Namecmp(name, data[d + 2..d + ENTRY]);
          if same {
            return Some((off + d, inum));
          }
        }
        d, e := d + ENTRY, e + 1;
      }
      off := off + BSIZE;
    }
    FindEnd(fs, i, name, e);
    return None;
  }

  lemma EntryBytes(fs: Fs, i: nat, e: nat, data: Block, off: nat, d: nat)
    requires Shape(fs) && i < |fs.inodes| && e * ENTRY == off + d && d + ENTRY <= BSIZE && off + BSIZE <= MAXFILE * BSIZE
    requires forall q :: off <= q < off + BSIZE ==> FileByte(fs, i, q) == data[q - off]
    ensures (e + 1) * ENTRY <= MAXFILE * BSIZE
    ensures var (lo: int, hi: int) := (data[d], data[d + 1]); EntryInum(fs, i, e) == lo + 256 * hi
    ensures EntryName(fs, i, e) == data[d + 2..d + ENTRY]
  {
    hide FileByte;
    assert FileByte(fs, i, off + d) == data[d] && FileByte(fs, i, off + d + 1) == data[d + 1];
    forall k | 0 <= k < DIRSIZ ensures EntryName(fs, i, e)[k] == data[d + 2..d + ENTRY][k] {
      assert FileByte(fs, i, off + d + 2 + k) == data[d + 2 + k];
    }
  }

  // ----- adding an entry

  function DirentBytes(name: seq<byte>, inum: nat): (b: seq<byte>)
    requires inum < 0x1_0000
    ensures |b| == ENTRY
  {
    [inum % 256, inum / 256] + Stored(name)
  }

  /** fs' is fs with entry e of directory i, free before, now naming inum. */
  ghost predicate EntryAdded(fs: Fs, fs': Fs, i: nat, e: nat, name: seq<byte>, inum: nat) {
    && IsDir(fs, i) && Inv(fs') && |fs'.inodes| == |fs.inodes| && 0 < inum < 0x1_0000
    && e * ENTRY <= fs.inodes[i].size && (e + 1) * ENTRY <= MAXFILE * BSIZE
    && (e * ENTRY < fs.inodes[i].size ==> EntryInum(fs, i, e) == 0)
    && fs'.inodes[i].size == Max(fs.inodes[i].size, (e + 1) * ENTRY)
    && forall p :: 0 <= p < MAXFILE * BSIZE ==>
         FileByte(fs', i, p) == if e * ENTRY <= p < (e + 1) * ENTRY then DirentBytes(name, inum)[p - e * ENTRY] else FileByte(fs, i, p)
  }

  lemma EntriesAfter(fs: Fs, fs': Fs, i: nat, e: nat, name: seq<byte>, inum: nat, d: nat)
    requires EntryAdded(fs, fs', i, e, name, inum) && (d + 1) * ENTRY <= MAXFILE * BSIZE
    ensures if d == e then EntryInum(fs', i, d) == inum && EntryName(fs', i, d) == Stored(name)
            else EntryInum(fs', i, d) == EntryInum(fs, i, d) && EntryName(fs', i, d) == EntryName(fs, i, d)
  {
    hide FileByte, Owned;
    var b := DirentBytes(name, inum);
    if d == e {
      assert FileByte(fs', i, d * ENTRY) == b[0] && FileByte(fs', i, d * ENTRY + 1) == b[1];
      forall k | 0 <= k < DIRSIZ ensures EntryName(fs', i, d)[k] == Stored(name)[k] {
        assert FileByte(fs', i, d * ENTRY + 2 + k) == b[2 + k];
      }
    } else {
      assert FileByte(fs', i, d * ENTRY + 0) == FileByte(fs, i, d * ENTRY + 0);
      assert FileByte(fs', i, d * ENTRY + 1) == FileByte(fs, i, d * ENTRY + 1);
      forall k | 0 <= k < DIRSIZ ensures EntryName(fs', i, d)[k] == EntryName(fs, i, d)[k] {
        assert FileByte(fs', i, d * ENTRY + (2 + k)) == FileByte(fs, i, d * ENTRY + (2 + k));
      }
    }
  }

  /** From entry d on, a search in the new directory finds the new entry, if it is
      still ahead and names m, and otherwise what the old one found. */
  lemma {:induction false} FindAfter(fs: Fs, fs': Fs, i: nat, e: nat, name: seq<byte>, inum: nat, m: seq<byte>, d: nat)
    requires EntryAdded(fs, fs', i, e, name, inum) && IsName(name) && IsName(m)
    requires Find(fs, i, name, 0) == None && (Stored(m) == Stored(name) ==> Find(fs, i, m, d) == None)
    ensures IsDir(fs', i)
    ensures Find(fs', i, m, d) == if Stored(m) == Stored(name) && d <= e then Some((e * ENTRY, inum)) else Find(fs, i, m, d)
    decreases MAXFILE * BSIZE - d * ENTRY
  {
    hide EntryInum, EntryName, Owned, FileByte, SameName, Stored;
    assert Sized(fs, i) && Sized(fs', i);
    if d * ENTRY < fs'.inodes[i].size {
      EntriesAfter(fs, fs', i, e, name, inum, d);
      SameNameStored(m, name);
      if d * ENTRY >= fs.inodes[i].size {
        assert d == e;
      }
      if d == e || (d * ENTRY < fs.inodes[i].size && !(EntryInum(fs, i, d) != 0 && SameName(m, EntryName(fs, i, d)))) {
        FindAfter(fs, fs', i, e, name, inum, m, d + 1);
      }
    }
  }

  lemma {:induction false} SameStoredFind(fs: Fs, i: nat, m: seq<byte>, name: seq<byte>, d: nat)
    requires IsDir(fs, i) && IsName(m) && IsName(name) && Stored(m) == Stored(name)
    ensures Find(fs, i, m, d) == Find(fs, i, name, d)
    decreases MAXFILE * BSIZE - d * ENTRY
  {
    hide EntryInum, Owned, FileByte;
    if d * ENTRY < fs.inodes[i].size {
      assert Sized(fs, i);
      StoredDecides(m, name, EntryName(fs, i, d));
      SameStoredFind(fs, i, m, name, d + 1);
    }
  }

  lemma StoredDecides(m: seq<byte>, name: seq<byte>, b: seq<byte>)
    requires IsName(m) && IsName(name) && Stored(m) == Stored(name) && |b| == DIRSIZ
    ensures SameName(m, b) <==> SameName(name, b)
  {
    forall k | 0 <= k < DIRSIZ ensures CharAt(m, k) == CharAt(name, k) && (k <= |m| <==> k <= |name|) {
      assert Stored(m)[k] == Stored(name)[k];
      if k > 0 {
        assert Stored(m)[k - 1] == Stored(name)[k - 1];
      }
    }
  }

  /** After adding an entry for a name that was absent, that name, and no other, gives the new inode. */
  lemma LookupAfter(fs: Fs, fs': Fs, i: nat, e: nat, name: seq<byte>, inum: nat, m: seq<byte>)
    requires EntryAdded(fs, fs', i, e, name, inum) && IsName(name) && IsName(m) && Lookup(fs, i, name) == None
    ensures IsDir(fs', i)
    ensures Lookup(fs', i, m) == if Stored(m) == Stored(name) then Some(inum) else Lookup(fs, i, m)
  {
    hide Find, Stored, FileByte, EntryInum;
    if Stored(m) == Stored(name) {
      SameStoredFind(fs, i, m, name, 0);
    }
    FindAfter(fs, fs', i, e, name, inum, m, 0);
  }

  const MAXENTRIES := 4480   // entries of the largest directory

  /** Entry e fits, and the disk has the blocks it is missing. */
  predicate HasRoom(fs: Fs, i: nat, e: nat)
    requires Shape(fs) && i < |fs.inodes|
  {
    e < MAXENTRIES && Demand(fs, i, e * ENTRY / BSIZE, e * ENTRY / BSIZE + 1) <= Free(fs)
  }

  /** The first entry from e on that is empty, or the one behind the last. */
  ghost function Place(fs: Fs, i: nat, e: nat): (r: nat)
    requires IsDir(fs, i) && e * ENTRY <= fs.inodes[i].size
    ensures e <= r && r * ENTRY <= fs.inodes[i].size
    decreases fs.inodes[i].size - e * ENTRY
  {
    if e * ENTRY == fs.inodes[i].size then e else
      assert Sized(fs, i);
      if EntryInum(fs, i, e) == 0 then e else Place(fs, i, e + 1)
  }

  /** The entry dirlink takes: both bytes of its inode number are zero, or it lies behind the
      last; and no entry before it is empty. */
  lemma {:induction false} PlaceIsFirstEmpty(fs: Fs, i: nat, e: nat)
    requires IsDir(fs, i) && e * ENTRY <= fs.inodes[i].size
    ensures fs.inodes[i].size <= MAXFILE * BSIZE
    ensures var r := Place(fs, i, e);
            && (r * 16 < fs.inodes[i].size ==> FileByte(fs, i, r * 16) == 0 && FileByte(fs, i, r * 16 + 1) == 0)
            && (r * 16 >= fs.inodes[i].size ==> r * 16 == fs.inodes[i].size)
            && forall k: nat :: e <= k < r ==> FileByte(fs, i, k * 16) != 0 || FileByte(fs, i, k * 16 + 1) != 0
    decreases fs.inodes[i].size - e * ENTRY
  {
    hide FileByte, Owned, Target;
    assert Sized(fs, i);
    if e * ENTRY != fs.inodes[i].size && EntryInum(fs, i, e) != 0 {
      PlaceIsFirstEmpty(fs, i, e + 1);
    }
  }

  /** The loop of dirlink that looks for an empty entry. */
  method EmptyOffset(st: Store, i: nat) returns (off: nat)
    requires IsDir(st.State(), i)
    modifies st`used, st`disk, st`inodes
    ensures st.State() == old(st.State())
    ensures off == Place(st.State(), i, 0) * ENTRY
    ensures off < st.inodes[i].size ==>
              (off / ENTRY + 1) * ENTRY <= MAXFILE * BSIZE && EntryInum(st.State(), i, off / ENTRY) == 0
  {
    hide Target, FileByte, Owned;
    ghost var fs := st.State();
    assert Sized(fs, i);
    off := 0;
    while off < st.inodes[i].size
      invariant st.State() == fs && off % ENTRY == 0 && off <= fs.inodes[i].size
      invariant Place(fs, i, 0) == Place(fs, i, off / ENTRY)
      decreases MAXFILE * BSIZE - off
    {
      var ok, de := st.Readi(i, off, ENTRY);
      var (lo: int, hi: int) := (de[0], de[1]);
      assert off / ENTRY * ENTRY == off && EntryInum(fs, i, off / ENTRY) == lo + 256 * hi;
      if lo + 256 * hi == 0 { break; }
      off := off + ENTRY;
    }
  }

  lemma LookupsAfter(fs: Fs, fs': Fs, i: nat, e: nat, name: seq<byte>, inum: nat)
    requires IsDir(fs, i) && EntryAdded(fs, fs', i, e, name, inum) && IsName(name) && Lookup(fs, i, name) == None
    ensures IsDir(fs', i)
    ensures forall m: seq<byte> :: IsName(m) ==> Lookup(fs', i, m) == if Stored(m) == Stored(name) then Some(inum) else Lookup(fs, i, m)
  {
    hide EntryAdded, Find, Stored, Owned;
    forall m: seq<byte> | IsName(m)
      ensures IsDir(fs', i)
      ensures Lookup(fs', i, m) == if Stored(m) == Stored(name) then Some(inum) else Lookup(fs, i, m)
    {
      LookupAfter(fs, fs', i, e, name, inum, m);
    }
    LookupAfter(fs, fs', i, e, name, inum, name);
  }

  /** Adds an entry for a name that is not present: exactly when the directory is not at its
      largest and the block of the entry is there or can be allocated on the disk. */
  method Dirlink(st: Store, i: nat, name: seq<byte>, inum: nat) returns (r: LinkResult)
    requires IsDir(st.State(), i) && IsName(name) && 0 < inum < 0x1_0000
    modifies st`used, st`disk, st`inodes
    ensures r.Exists? <==> old(Lookup(st.State(), i, name)).Some?
    ensures r.Exists? ==> st.State() == old(st.State())
    ensures !r.Exists? ==> (r.Linked? <==> old(HasRoom(st.State(), i, Place(st.State(), i, 0))))
    ensures !r.Exists? && !r.Linked? ==>
              (r.LinkPastDisk? <==> old(Place(st.State(), i, 0)) < MAXENTRIES && old(Spare(st.State())) > 0)
    ensures Shape(st.State()) && (Core(st.State()) <==> !r.LinkPastDisk?)
    ensures r.Linked? ==> EntryAdded(old(st.State()), st.State(), i, old(Place(st.State(), i, 0)), name, inum)
    ensures r.Linked? ==>
              && IsDir(st.State(), i) && |st.inodes| == |old(st.inodes)|
              && (forall m: seq<byte> :: IsName(m) ==>
                    Lookup(st.State(), i, m)
                    == if Stored(m) == Stored(name) then Some(inum) else old(Lookup(st.State(), i, m)))
              && (forall j, p :: 0 <= j < |st.inodes| && j != i && 0 <= p < MAXFILE * BSIZE ==>
                    FileByte(st.State(), j, p) == old(FileByte(st.State(), j, p)))
  {
    hide Target, FileByte, Owned, Find, EntryName, SameName, DirentBytes, Demand, Free, Spare, Place, EntryInum;
    ghost var fs := st.State();
    assert Sized(fs, i);
    var found := Dirlookup(st, i, name);
    if found.Some? { return Exists; }
    var off := EmptyOffset(st, i);
    var stored := Strncpy(name);
    var src := [inum % 256, inum / 256] + stored;
    DirentIs(name, inum);
    NoDemand(fs, i, off / BSIZE);
    var w := st.Writei(i, src, off, ENTRY);
    if w.PastDisk? { return LinkPastDisk; }
    if w.Panicked? || w.Refused? || w.n != ENTRY { return LinkPanicked; }
    ghost var e := off / ENTRY;
    assert e * ENTRY == off;
    assert EntryAdded(fs, st.State(), i, e, name, inum);
    LookupsAfter(fs, st.State(), i, e, name, inum);
    return Linked;
  }

  lemma DirentIs(name: seq<byte>, inum: nat)
    requires inum < 0x1_0000
    ensures DirentBytes(name, inum) == [inum % 256, inum / 256] + Stored(name)
  {}
}
