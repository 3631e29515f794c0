/** Looking up the block behind a logical block number, allocating what is missing,
    and the exact condition under which that keeps the store sound.

    The search for a free block does not compare with the size of the disk: it runs over
    whole bitmap blocks, so on a full disk it finds the spare bits behind the last block. */
module FsMap {
  import opened Basics
  import opened FsState

  // ----- attaching, in the form bmap does it

  function AttachDirect(fs: Fs, i: nat, k: nat, b: nat): Fs
    requires Shape(fs) && i < |fs.inodes| && k <= NDIRECT && b < fs.size
  {
    fs.(used := fs.used[b := true], inodes := fs.inodes[i := fs.inodes[i].(addrs := fs.inodes[i].addrs[k := b])])
  }

  function AttachEntry(fs: Fs, i: nat, j: nat, b: nat): Fs
    requires Shape(fs) && i < |fs.inodes| && j < NINDIRECT && b < fs.size && fs.inodes[i].addrs[NDIRECT] < fs.size
  {
    var x := fs.inodes[i].addrs[NDIRECT];
    fs.(used := fs.used[b := true], disk := fs.disk[x := SetWord(fs.disk[x], j, b)])
  }

  lemma ZeroWords(b: Block, j: nat)
    requires b == ZeroBlock() && j < NINDIRECT
    ensures Word(b, j) == 0
  {}

  lemma DirectAttaches(fs: Fs, i: nat, k: nat, b: nat)
    requires Attachable(fs, i, k, b) && k <= NDIRECT
    ensures Attached(fs, AttachDirect(fs, i, k, b), i, k, b)
  {
    hide Word;
    var fs' := AttachDirect(fs, i, k, b);
    forall j, l | IsSlot(fs, j, l) ensures Target(fs', j, l) == if j == i && l == k then b else Target(fs, j, l) {
      if j == i && l > NDIRECT && k == NDIRECT {
        ZeroWords(fs.disk[b], l - NDIRECT - 1);
      }
    }
  }

  lemma EntryAttaches(fs: Fs, i: nat, j: nat, b: nat)
    requires j < NINDIRECT && Attachable(fs, i, NDIRECT + 1 + j, b) && fs.inodes[i].addrs[NDIRECT] != 0
    ensures fs.inodes[i].addrs[NDIRECT] < fs.size
    ensures Attached(fs, AttachEntry(fs, i, j, b), i, NDIRECT + 1 + j, b)
  {
    hide Word;
    var x := fs.inodes[i].addrs[NDIRECT];
    assert IsSlot(fs, i, NDIRECT) && Target(fs, i, NDIRECT) == x;
    var fs' := AttachEntry(fs, i, j, b);
    forall h, l | IsSlot(fs, h, l)
      ensures Target(fs', h, l) == if h == i && l == NDIRECT + 1 + j then b else Target(fs, h, l)
    {
      assert IsSlot(fs, h, NDIRECT) && Target(fs, h, NDIRECT) == fs.inodes[h].addrs[NDIRECT];
      if l > NDIRECT && h == i {
        SetWordReads(fs.disk[x], j, b, l - NDIRECT - 1);
      }
    }
  }

  // ----- free blocks and spare bits

  /** The clear bits among the first n of the bitmap. */
  function Clear(used: seq<bool>, n: nat): nat
    requires n <= |used|
  {
    if n == 0 then 0 else Clear(used, n - 1) + if used[n - 1] then 0 else 1
  }

  /** Free blocks of the disk. */
  function Free(fs: Fs): nat
    requires Shape(fs)
  {
    Clear(fs.used, fs.size)
  }

  /** Clear bits that belong to no block of the disk. */
  function Spare(fs: Fs): int
    requires Shape(fs)
  {
    Clear(fs.used, |fs.used|) - Clear(fs.used, fs.size)
  }

  lemma {:induction false} ClearNone(used: seq<bool>, n: nat)
    requires n <= |used|
    ensures Clear(used, n) == 0 <==> forall c :: 0 <= c < n ==> used[c]
  {
    if n > 0 {
      ClearNone(used, n - 1);
    }
  }

  lemma {:induction false} ClearSet(used: seq<bool>, b: nat, n: nat)
    requires n <= |used| && b < |used| && !used[b]
    ensures Clear(used[b := true], n) == Clear(used, n) - if b < n then 1 else 0
  {
    if n > 0 {
      ClearSet(used, b, n - 1);
    }
  }

  lemma {:induction false} ClearMore(used: seq<bool>, n: nat, m: nat)
    requires n <= m <= |used|
    ensures Clear(used, n) <= Clear(used, m)
    decreases m
  {
    if n < m {
      ClearMore(used, n, m - 1);
    }
  }

  /** The first clear bit from b on, or the number of bits. */
  function FirstClear(used: seq<bool>, b: nat): (r: nat)
    requires b <= |used|
    ensures b <= r <= |used| && (forall c :: b <= c < r ==> used[c]) && (r < |used| ==> !used[r])
    decreases |used| - b
  {
    if b == |used| || !used[b] then b else FirstClear(used, b + 1)
  }

  /** Where the first clear bit lies tells whether there is a free block or a spare bit. */
  lemma FirstClearTells(fs: Fs)
    requires Shape(fs)
    ensures var b := FirstClear(fs.used, 0);
            && (b < fs.size <==> Free(fs) > 0) && (b < |fs.used| <==> Free(fs) + Spare(fs) > 0) && Spare(fs) >= 0
            && b <= 0x1_0000_0000 && (b < |fs.used| ==> b < 0x1_0000_0000)
  {
    var b := FirstClear(fs.used, 0);
    ClearNone(fs.used, fs.size);
    ClearNone(fs.used, |fs.used|);
    ClearMore(fs.used, fs.size, |fs.used|);
    assert |fs.used| <= 0x1_0000_0000;
  }

  // ----- bmap on values

  /** A block number, a panic because no bit is clear, the need to read an indirect block
      that is not on the disk, or a panic because the number is beyond the largest file. */
  datatype MapResult = Mapped(addr: nat) | NoBlocks | OffDisk | TooFar

  /** A pointer of the inode itself, allocated if it is empty. */
  function MapSlot(fs: Fs, i: nat, k: nat): (r: (Fs, MapResult))
    requires Shape(fs) && i < |fs.inodes| && k <= NDIRECT
    ensures Shape(r.0) && |r.0.inodes| == |fs.inodes| && r.0.size == fs.size && r.1 != OffDisk && r.1 != TooFar
  {
    var b := FirstClear(fs.used, 0);
    if fs.inodes[i].addrs[k] != 0 then (fs, Mapped(fs.inodes[i].addrs[k]))
    else if b == |fs.used| then (fs, NoBlocks)
    else (fs.(used := fs.used[b := true], inodes := fs.inodes[i := fs.inodes[i].(addrs := fs.inodes[i].addrs[k := b])]), Mapped(b))
  }

  /** An entry of indirect block x, allocated if it is empty. */
  function MapEntry(fs: Fs, x: nat, j: nat): (r: (Fs, MapResult))
    requires Shape(fs) && x < fs.size && j < NINDIRECT
    ensures Shape(r.0) && r.0.inodes == fs.inodes && r.0.size == fs.size
  {
    FirstClearTells(fs);
    var b := FirstClear(fs.used, 0);
    if Word(fs.disk[x], j) != 0 then (fs, Mapped(Word(fs.disk[x], j)))
    else if b == |fs.used| then (fs, NoBlocks)
    else (fs.(used := fs.used[b := true], disk := fs.disk[x := SetWord(fs.disk[x], j, b)]), Mapped(b))
  }

  function MapBlock(fs: Fs, i: nat, bn: nat): (r: (Fs, MapResult))
    requires Shape(fs) && i < |fs.inodes|
    ensures Shape(r.0) && |r.0.inodes| == |fs.inodes| && r.0.size == fs.size && (r.1 == TooFar <==> bn >= MAXFILE)
  {
    if bn < NDIRECT then MapSlot(fs, i, bn)
    else if bn < MAXFILE then
      var ind := MapSlot(fs, i, NDIRECT);
      if !ind.1.Mapped? then ind
      else if ind.1.addr >= fs.size then (ind.0, OffDisk)
      else MapEntry(ind.0, ind.1.addr, bn - NDIRECT)
    else (fs, TooFar)
  }

  // ----- when bmap keeps the store sound

  /** How many blocks are missing on the way to a logical block: none, one, or two when the
      indirect block is missing too. */
  function Needs(fs: Fs, i: nat, bn: nat): nat
    requires Shape(fs) && i < |fs.inodes| && bn < MAXFILE
  {
    if Target(fs, i, SlotOf(bn)) != 0 then 0
    else if bn >= NDIRECT && fs.inodes[i].addrs[NDIRECT] == 0 then 2
    else 1
  }

  lemma GrownTwice(a: Fs, b: Fs, c: Fs)
    requires Shape(a) && Shape(b) && Shape(c) && Grown(a, b) && Grown(b, c)
    ensures Grown(a, c)
  {
    hide Target;
    forall i, k | IsSlot(a, i, k) && Target(a, i, k) != 0 ensures Target(c, i, k) == Target(a, i, k) {
      assert IsSlot(b, i, k);
    }
  }

  lemma DirectTarget(fs: Fs, i: nat, k: nat)
    requires Core(fs) && i < |fs.inodes| && k <= NDIRECT
    ensures Target(fs, i, k) == fs.inodes[i].addrs[k] && fs.inodes[i].addrs[k] < fs.size
  {
    assert IsSlot(fs, i, k);
  }

  lemma NoIndirect(fs: Fs, i: nat, k: nat)
    requires Core(fs) && i < |fs.inodes| && NDIRECT < k < NSLOTS && fs.inodes[i].addrs[NDIRECT] == 0
    ensures Target(fs, i, k) == 0
  {}

  lemma EntryTarget(fs: Fs, i: nat, j: nat)
    requires Core(fs) && i < |fs.inodes| && j < NINDIRECT && fs.inodes[i].addrs[NDIRECT] != 0
    ensures var x := fs.inodes[i].addrs[NDIRECT];
            x < fs.size && Target(fs, i, NDIRECT + 1 + j) == Word(fs.disk[x], j) < fs.size
  {
    assert IsSlot(fs, i, NDIRECT) && IsSlot(fs, i, NDIRECT + 1 + j);
  }

  lemma ChainSame(a: Fs, b: Fs, c: Fs)
    requires Shape(a) && Shape(b) && Shape(c) && SameFiles(a, b) && SameFiles(b, c) && Grown(a, b) && Grown(b, c)
    ensures SameFiles(a, c) && Grown(a, c)
  {
    hide Target, FileByte;
    GrownTwice(a, b, c);
  }

  /** Every other slot of the file points where it pointed. */
  ghost predicate OthersStay(fs: Fs, fs': Fs, i: nat, bn: nat)
    requires Shape(fs) && Shape(fs') && i < |fs.inodes| == |fs'.inodes| && bn < MAXFILE
  {
    && (forall l :: 0 <= l < NSLOTS && l != SlotOf(bn) && l != NDIRECT ==> Target(fs', i, l) == Target(fs, i, l))
    && (bn >= NDIRECT ==> fs'.inodes[i].addrs[NDIRECT] != 0)
    && (bn < NDIRECT || fs.inodes[i].addrs[NDIRECT] != 0 ==> fs'.inodes[i].addrs[NDIRECT] == fs.inodes[i].addrs[NDIRECT])
  }

  /** The block was found, n blocks having been allocated on the way. */
  ghost predicate Found(fs: Fs, fs': Fs, i: nat, bn: nat, r: MapResult, n: nat)
    requires Shape(fs) && Shape(fs') && i < |fs.inodes| && bn < MAXFILE
  {
    && Core(fs') && SameFiles(fs, fs') && Grown(fs, fs') && OthersStay(fs, fs', i, bn)
    && r.Mapped? && r.addr == Target(fs', i, SlotOf(bn)) && 0 < r.addr < fs.size
    && Free(fs') == Free(fs) - n && Spare(fs') == Spare(fs)
  }

  /** A slot that points to a block the disk does not have breaks ownership. */
  lemma PointsOff(fs: Fs, i: nat, k: nat)
    requires Shape(fs) && i < |fs.inodes| && k < NSLOTS && Target(fs, i, k) >= fs.size
    ensures !Core(fs)
  {
    assert IsSlot(fs, i, k);
  }

  lemma TakeCounts(fs: Fs, fs': Fs)
    requires Shape(fs) && Shape(fs') && fs'.size == fs.size
    requires var b := FirstClear(fs.used, 0); b < |fs.used| && fs'.used == fs.used[b := true]
    ensures var b := FirstClear(fs.used, 0);
            if b < fs.size then Free(fs') == Free(fs) - 1 && Spare(fs') == Spare(fs)
            else Free(fs') == Free(fs) && Spare(fs') == Spare(fs) - 1
  {
    var b := FirstClear(fs.used, 0);
    ClearSet(fs.used, b, fs.size);
    ClearSet(fs.used, b, |fs.used|);
  }

  lemma AttachedStays(fs: Fs, fs': Fs, i: nat, k: nat, b: nat, bn: nat)
    requires Core(fs) && Shape(fs') && i < |fs.inodes| && bn < MAXFILE && k < NSLOTS && b < fs.size && Attached(fs, fs', i, k, b)
    requires k == SlotOf(bn) && b != 0 && (bn >= NDIRECT ==> fs.inodes[i].addrs[NDIRECT] != 0)
    ensures OthersStay(fs, fs', i, bn)
  {
    hide Owned, Word;
    forall l | 0 <= l < NSLOTS && l != SlotOf(bn) ensures Target(fs', i, l) == Target(fs, i, l) {
      assert IsSlot(fs, i, l);
    }
    assert Target(fs', i, NDIRECT) == fs'.inodes[i].addrs[NDIRECT] && Target(fs, i, NDIRECT) == fs.inodes[i].addrs[NDIRECT];
  }

  /** Allocating a pointer of the inode: from the disk if a block is free, behind it if only
      spare bits are clear. */
  lemma SlotExact(fs: Fs, i: nat, k: nat)
    requires Core(fs) && i < |fs.inodes| && k <= NDIRECT && fs.inodes[i].addrs[k] == 0
    ensures var (fs', r) := MapSlot(fs, i, k);
            if Free(fs) > 0 then
              && r.Mapped? && r.addr < fs.size && Attached(fs, fs', i, k, r.addr) && r.addr != 0
              && Core(fs') && SameFiles(fs, fs') && Grown(fs, fs') && fs'.inodes[i].addrs[k] == r.addr
              && Free(fs') == Free(fs) - 1 && Spare(fs') == Spare(fs)
            else if Spare(fs) > 0 then r.Mapped? && r.addr >= fs.size && Target(fs', i, k) == r.addr
            else fs' == fs && r == NoBlocks
  {
    hide Word, SetWord, Owned, Attached, FileByte;
    FirstClearTells(fs);
    var b := FirstClear(fs.used, 0);
    if b < |fs.used| {
      TakeCounts(fs, MapSlot(fs, i, k).0);
    }
    if b < fs.size {
      assert MapSlot(fs, i, k).0 == AttachDirect(fs, i, k, b);
      DirectAttaches(fs, i, k, b);
      AttachKeeps(fs, AttachDirect(fs, i, k, b), i, k, b);
    }
  }

  lemma EntryExact(fs: Fs, i: nat, j: nat)
    requires Core(fs) && i < |fs.inodes| && j < NINDIRECT && fs.inodes[i].addrs[NDIRECT] != 0
    requires Target(fs, i, NDIRECT + 1 + j) == 0
    ensures fs.inodes[i].addrs[NDIRECT] < fs.size
    ensures var (fs', r) := MapEntry(fs, fs.inodes[i].addrs[NDIRECT], j);
            var k := NDIRECT + 1 + j;
            if Free(fs) > 0 then
              && r.Mapped? && r.addr < fs.size && Attached(fs, fs', i, k, r.addr) && r.addr != 0
              && Core(fs') && SameFiles(fs, fs') && Grown(fs, fs') && Target(fs', i, k) == r.addr
              && Free(fs') == Free(fs) - 1 && Spare(fs') == Spare(fs)
            else if Spare(fs) > 0 then r.Mapped? && r.addr >= fs.size && Target(fs', i, k) == r.addr
            else fs' == fs && r == NoBlocks
  {
    hide Owned, Attached, FileByte, Word, SetWord;
    EntryTarget(fs, i, j);
    FirstClearTells(fs);
    var b := FirstClear(fs.used, 0);
    var x := fs.inodes[i].addrs[NDIRECT];
    if b < |fs.used| {
      TakeCounts(fs, MapEntry(fs, x, j).0);
      SetWordReads(fs.disk[x], j, b, j);
    }
    if b < fs.size {
      assert MapEntry(fs, x, j).0 == AttachEntry(fs, i, j, b);
      EntryAttaches(fs, i, j, b);
      AttachKeeps(fs, AttachEntry(fs, i, j, b), i, NDIRECT + 1 + j, b);
    }
  }

  /** What bmap does, by the free blocks before the call. */
  ghost predicate Outcome(fs: Fs, fs': Fs, i: nat, bn: nat, r: MapResult)
    requires Shape(fs) && Shape(fs') && i < |fs.inodes| && bn < MAXFILE
  {
    var n := Needs(fs, i, bn);
    && (n <= Free(fs) ==> Found(fs, fs', i, bn, r, n))
    && (n > Free(fs) && Spare(fs) > 0 ==> !Core(fs') && (r == OffDisk || (r.Mapped? && r.addr >= fs.size)))
    && (n > Free(fs) && Spare(fs) <= 0 ==> && Core(fs') && SameFiles(fs, fs') && Grown(fs, fs') && r == NoBlocks && Free(fs') == 0 && Spare(fs') <= 0)
  }

  lemma MappedAlready(fs: Fs, i: nat, bn: nat)
    requires Core(fs) && i < |fs.inodes| && bn < MAXFILE && Needs(fs, i, bn) == 0
    ensures var (fs', r) := MapBlock(fs, i, bn); fs' == fs && Found(fs, fs', i, bn, r, 0)
  {
    hide FileByte, Word, Owned;
    if bn < NDIRECT {
      DirectTarget(fs, i, bn);
    } else {
      DirectTarget(fs, i, NDIRECT);
      if fs.inodes[i].addrs[NDIRECT] == 0 {
        NoIndirect(fs, i, SlotOf(bn));
      } else {
        EntryTarget(fs, i, bn - NDIRECT);
      }
    }
  }

  lemma NothingMapped(fs: Fs)
    requires Shape(fs)
    ensures SameFiles(fs, fs) && Grown(fs, fs)
  {}

  /** A missing pointer of the inode. */
  lemma DirectOutcome(fs: Fs, i: nat, bn: nat)
    requires Core(fs) && i < |fs.inodes| && bn < NDIRECT && Needs(fs, i, bn) > 0
    ensures var (fs', r) := MapBlock(fs, i, bn); Outcome(fs, fs', i, bn, r)
  {
    hide FileByte, Word, Owned, Attached, OthersStay, SameFiles, Grown, MapSlot;
    DirectTarget(fs, i, bn);
    SlotExact(fs, i, bn);
    var (fs', r) := MapSlot(fs, i, bn);
    if Free(fs) > 0 {
      AttachedStays(fs, fs', i, bn, r.addr, bn);
      DirectTarget(fs', i, bn);
    } else if Spare(fs) > 0 {
      PointsOff(fs', i, bn);
    } else {
      NothingMapped(fs);
    }
  }

  /** A missing entry of an indirect block that is there. */
  lemma EntryOutcome(fs: Fs, i: nat, bn: nat)
    requires Core(fs) && i < |fs.inodes| && NDIRECT <= bn < MAXFILE
    requires fs.inodes[i].addrs[NDIRECT] != 0 && Target(fs, i, SlotOf(bn)) == 0
    ensures fs.inodes[i].addrs[NDIRECT] < fs.size
    ensures var (fs', r) := MapEntry(fs, fs.inodes[i].addrs[NDIRECT], bn - NDIRECT);
            Outcome(fs, fs', i, bn, r) && MapBlock(fs, i, bn) == (fs', r)
  {
    hide FileByte, Word, Owned, Attached, OthersStay, SameFiles, Grown, MapEntry, Target;
    DirectTarget(fs, i, NDIRECT);
    EntryExact(fs, i, bn - NDIRECT);
    var (fs', r) := MapEntry(fs, fs.inodes[i].addrs[NDIRECT], bn - NDIRECT);
    if Free(fs) > 0 {
      AttachedStays(fs, fs', i, SlotOf(bn), r.addr, bn);
    } else if Spare(fs) > 0 {
      PointsOff(fs', i, SlotOf(bn));
    } else {
      NothingMapped(fs);
    }
  }

  lemma FoundTwice(fs: Fs, fs1: Fs, fs2: Fs, i: nat, bn: nat, r: MapResult)
    requires Core(fs) && Core(fs1) && Shape(fs2) && i < |fs.inodes| == |fs1.inodes| && NDIRECT <= bn < MAXFILE
    requires SameFiles(fs, fs1) && Grown(fs, fs1) && Free(fs1) == Free(fs) - 1 && Spare(fs1) == Spare(fs)
    requires forall l :: 0 <= l < NSLOTS && l != NDIRECT ==> Target(fs1, i, l) == Target(fs, i, l)
    requires fs.inodes[i].addrs[NDIRECT] == 0 && fs1.inodes[i].addrs[NDIRECT] != 0 && Found(fs1, fs2, i, bn, r, 1)
    ensures Found(fs, fs2, i, bn, r, 2)
  {
    hide Owned, Target, FileByte;
    ChainSame(fs, fs1, fs2);
  }

  /** The indirect block and its entry are both missing. */
  lemma BothOutcome(fs: Fs, i: nat, bn: nat)
    requires Core(fs) && i < |fs.inodes| && NDIRECT <= bn < MAXFILE && fs.inodes[i].addrs[NDIRECT] == 0
    ensures var (fs', r) := MapBlock(fs, i, bn); Outcome(fs, fs', i, bn, r)
  {
    hide FileByte, Word, Owned, OthersStay, SameFiles, Grown, MapEntry, MapSlot, Target;
    NoIndirect(fs, i, SlotOf(bn));
    SlotExact(fs, i, NDIRECT);
    var (fs1, ind) := MapSlot(fs, i, NDIRECT);
    if Free(fs) > 0 {
      AttachedTargets(fs, fs1, i, ind.addr);
      EntryOutcome(fs1, i, bn);
      var (fs2, r) := MapEntry(fs1, ind.addr, bn - NDIRECT);
      if Free(fs) > 1 {
        FoundTwice(fs, fs1, fs2, i, bn, r);
      } else if Spare(fs) <= 0 {
        ChainSame(fs, fs1, fs2);
      }
    } else if Spare(fs) > 0 {
      PointsOff(fs1, i, NDIRECT);
    } else {
      NothingMapped(fs);
    }
  }

  lemma AttachedTargets(fs: Fs, fs1: Fs, i: nat, b: nat)
    requires Core(fs) && Shape(fs1) && i < |fs.inodes| && b < fs.size && Attached(fs, fs1, i, NDIRECT, b)
    ensures forall l :: 0 <= l < NSLOTS && l != NDIRECT ==> Target(fs1, i, l) == Target(fs, i, l)
  {
    hide Target, Owned;
    forall l | 0 <= l < NSLOTS && l != NDIRECT ensures Target(fs1, i, l) == Target(fs, i, l) {
      assert IsSlot(fs, i, l);
    }
  }

  lemma MapBlockOutcome(fs: Fs, i: nat, bn: nat)
    requires Core(fs) && i < |fs.inodes| && bn < MAXFILE
    ensures var (fs', r) := MapBlock(fs, i, bn); Outcome(fs, fs', i, bn, r) && (Needs(fs, i, bn) == 0 ==> fs' == fs)
  {
    hide FileByte, Word, Owned, OthersStay, SameFiles, Grown, MapEntry, MapSlot, MapBlock;
    if Needs(fs, i, bn) == 0 {
      MappedAlready(fs, i, bn);
    } else if bn < NDIRECT {
      DirectOutcome(fs, i, bn);
    } else if fs.inodes[i].addrs[NDIRECT] == 0 {
      BothOutcome(fs, i, bn);
    } else {
      EntryOutcome(fs, i, bn);
    }
  }

  /** bmap gives a block of the disk and keeps ownership exactly when as many blocks of the
      disk are free as are missing.  With fewer it panics if no bit is clear, and otherwise
      gives, or follows, a block behind the disk and ownership is broken. */
  lemma MapBlockExact(fs: Fs, i: nat, bn: nat)
    requires Core(fs) && i < |fs.inodes| && bn < MAXFILE
    ensures var (fs', r) := MapBlock(fs, i, bn);
            var enough := Needs(fs, i, bn) <= Free(fs);
            && (r.Mapped? && r.addr < fs.size && Core(fs') <==> enough)
            && (enough ==> SameFiles(fs, fs') && Grown(fs, fs') && r.addr == Target(fs', i, SlotOf(bn)) > 0)
            && (!Core(fs') <==> !enough && Spare(fs) > 0)
            && (r == NoBlocks <==> !enough && Spare(fs) == 0) && (r == NoBlocks ==> SameFiles(fs, fs') && Grown(fs, fs'))
  {
    hide FileByte, Word, Owned, OthersStay, SameFiles, Grown, MapBlock;
    FirstClearTells(fs);
    MapBlockOutcome(fs, i, bn);
  }

  // ----- what a whole write needs

  /** Logical blocks from lo up to hi that are not there. */
  function Holes(fs: Fs, i: nat, lo: nat, hi: nat): nat
    requires Shape(fs) && i < |fs.inodes| && hi <= MAXFILE
    decreases hi - lo
  {
    if lo >= hi then 0 else (if Target(fs, i, SlotOf(lo)) == 0 then 1 else 0) + Holes(fs, i, lo + 1, hi)
  }

  /** The blocks missing for logical blocks lo up to hi, the indirect block included. */
  function Demand(fs: Fs, i: nat, lo: nat, hi: nat): nat
    requires Shape(fs) && i < |fs.inodes| && hi <= MAXFILE
  {
    Holes(fs, i, lo, hi) + if lo < hi && hi > NDIRECT && fs.inodes[i].addrs[NDIRECT] == 0 then 1 else 0
  }

  lemma {:induction false} HolesSame(fs: Fs, fs': Fs, i: nat, lo: nat, hi: nat)
    requires Shape(fs) && Shape(fs') && i < |fs.inodes| == |fs'.inodes| && hi <= MAXFILE
    requires forall n :: lo <= n < hi ==> Target(fs', i, SlotOf(n)) == Target(fs, i, SlotOf(n))
    ensures Holes(fs', i, lo, hi) == Holes(fs, i, lo, hi)
    decreases hi - lo
  {
    if lo < hi {
      HolesSame(fs, fs', i, lo + 1, hi);
    }
  }

  /** Finding one block takes what it needs off the demand. */
  lemma DemandStep(fs: Fs, fs': Fs, i: nat, lo: nat, hi: nat, r: MapResult)
    requires Core(fs) && Shape(fs') && i < |fs.inodes| && lo < hi <= MAXFILE && Found(fs, fs', i, lo, r, Needs(fs, i, lo))
    ensures Demand(fs', i, lo + 1, hi) == Demand(fs, i, lo, hi) - Needs(fs, i, lo)
    ensures Demand(fs', i, lo, hi) == Demand(fs', i, lo + 1, hi)
  {
    hide Owned, Target, FileByte, Grown;
    HolesSame(fs, fs', i, lo + 1, hi);
    if fs.inodes[i].addrs[NDIRECT] == 0 && lo >= NDIRECT {
      NoIndirect(fs, i, SlotOf(lo));
    }
  }

  lemma NoDemand(fs: Fs, i: nat, lo: nat)
    requires Shape(fs) && i < |fs.inodes| && lo <= MAXFILE
    ensures Demand(fs, i, lo, lo) == 0
  {}

  lemma DemandAtLeast(fs: Fs, i: nat, lo: nat, hi: nat)
    requires Core(fs) && i < |fs.inodes| && lo < hi <= MAXFILE
    ensures Demand(fs, i, lo, hi) >= Needs(fs, i, lo)
  {}

  /** A block that is there needs nothing. */
  lemma DemandOfMapped(fs: Fs, i: nat, bn: nat)
    requires Core(fs) && i < |fs.inodes| && bn < MAXFILE && Target(fs, i, SlotOf(bn)) != 0
    ensures Demand(fs, i, bn, bn + 1) == 0
  {
    hide Owned, Word;
    assert Holes(fs, i, bn + 1, bn + 1) == 0;
    if bn >= NDIRECT && fs.inodes[i].addrs[NDIRECT] == 0 {
      NoIndirect(fs, i, SlotOf(bn));
    }
  }

  lemma DemandSame(fs: Fs, fs': Fs, i: nat, lo: nat, hi: nat)
    requires Core(fs) && Core(fs') && i < |fs.inodes| == |fs'.inodes| && hi <= MAXFILE
    requires forall k :: 0 <= k < NSLOTS ==> Target(fs', i, k) == Target(fs, i, k)
    ensures Demand(fs', i, lo, hi) == Demand(fs, i, lo, hi)
  {
    hide Owned, Target;
    HolesSame(fs, fs', i, lo, hi);
    DirectTarget(fs, i, NDIRECT);
    DirectTarget(fs', i, NDIRECT);
  }
}
