/** A full disk of the size mkfs makes, and what allocating one more block does to it. */
module FsFull {
  import opened Basics
  import opened FsState
  import opened FsMap

  const SIZE := 1024
  const START := 29        // superblock, inodes and bitmap lie before
  const LASTFILE := 82     // its eleven blocks are the last ones

  /** Block k of file j, twelve blocks to a file, until the disk is used up. */
  function BlockOf(j: nat, k: nat): nat { if k < NDIRECT && START + 12 * j + k < SIZE then START + 12 * j + k else 0 }

  function FullInode(j: nat): Inode {
    Inode(if j < LASTFILE then 12 * BSIZE else if j == LASTFILE then 11 * BSIZE else 0, seq(NDIRECT + 1, k requires 0 <= k => BlockOf(j, k)))
  }

  function FullFs(): Fs {
    Fs(SIZE, START, seq(BPB, b => b < SIZE), seq(SIZE, _ => ZeroBlock()), seq(200, j requires 0 <= j => FullInode(j)))
  }

  lemma FullTarget(j: nat, l: nat)
    requires j < 200 && l < NSLOTS
    ensures Shape(FullFs()) && Target(FullFs(), j, l) == if l < NDIRECT then BlockOf(j, l) else 0
  {}

  lemma FullCore()
    ensures Core(FullFs())
  {
    hide Target, BlockOf, FullInode;
    var fs := FullFs();
    FullTarget(0, 0);
    forall i, k | IsSlot(fs, i, k) && Target(fs, i, k) != 0
      ensures fs.dataStart <= Target(fs, i, k) < fs.size && fs.used[Target(fs, i, k)]
    {
      FullTarget(i, k);
      BlockRange(i, k);
    }
    forall i, k, j, l | IsSlot(fs, i, k) && IsSlot(fs, j, l) && Target(fs, i, k) != 0 && Target(fs, i, k) == Target(fs, j, l)
      ensures i == j && k == l
    {
      FullTarget(i, k);
      FullTarget(j, l);
      BlocksApart(i, k, j, l);
    }
    forall b | fs.dataStart <= b < fs.size && fs.used[b] ensures HasOwner(fs, b) {
      var (j, k) := ((b - START) / 12, (b - START) % 12);
      FullTarget(j, k);
      BlockIs(b);
      assert IsSlot(fs, j, k);
    }
  }

  lemma BlockRange(j: nat, k: nat)
    requires BlockOf(j, k) != 0
    ensures START <= BlockOf(j, k) < SIZE && k < NDIRECT
  {}

  lemma BlocksApart(i: nat, k: nat, j: nat, l: nat)
    requires BlockOf(i, k) == BlockOf(j, l) != 0
    ensures i == j && k == l
  {}

  lemma BlockIs(b: nat)
    requires START <= b < SIZE
    ensures BlockOf((b - START) / 12, (b - START) % 12) == b && (b - START) / 12 < 200
  {}

  lemma FullInv()
    ensures Inv(FullFs())
  {
    hide Target, BlockOf, Owned;
    FullCore();
    var fs := FullFs();
    forall j | 0 <= j < 200 ensures Sized(fs, j) {
      forall n | 0 <= n < MAXFILE && n * BSIZE < fs.inodes[j].size ensures Target(fs, j, SlotOf(n)) != 0 {
        FullTarget(j, SlotOf(n));
        FullBlock(j, n);
      }
      forall p | fs.inodes[j].size <= p < MAXFILE * BSIZE ensures FileByte(fs, j, p) == 0 {
        assert fs.disk[0] == ZeroBlock();
      }
    }
  }

  lemma FullBlock(j: nat, n: nat)
    requires n * BSIZE < FullInode(j).size
    ensures n < NDIRECT && BlockOf(j, n) != 0
  {}

  lemma FullCounts()
    ensures Shape(FullFs()) && Free(FullFs()) == 0 && Spare(FullFs()) > 0 && FirstClear(FullFs().used, 0) == SIZE < |FullFs().used|
  {
    var fs := FullFs();
    FullTarget(0, 0);
    ClearNone(fs.used, SIZE);
    ClearNone(fs.used, BPB);
    FirstClearTells(fs);
    assert !fs.used[SIZE];
  }

  /** On a sound but full disk, the first block of an empty file is mapped to block 1024,
      which the disk does not have, and the store is sound no longer. */
  lemma FullDiskMapsPastTheEnd()
    ensures Inv(FullFs()) && Needs(FullFs(), 100, 0) == 1 && Free(FullFs()) == 0
    ensures MapBlock(FullFs(), 100, 0).1 == Mapped(SIZE) && !Core(MapBlock(FullFs(), 100, 0).0)
  {
    hide FullFs, Owned, Target, Core, FirstClear, MapBlock, Sized, Free, Spare;
    FullInv();
    FullCounts();
    FullEmpty();
    InvCore(FullFs());
    MapBlockExact(FullFs(), 100, 0);
    FirstMapped(FullFs(), 100);
  }

  lemma InvCore(fs: Fs)
    requires Inv(fs)
    ensures Core(fs)
  {}

  lemma FullEmpty()
    ensures Shape(FullFs()) && |FullFs().inodes| == 200 && FullFs().size == SIZE && FullFs().inodes[100].addrs[0] == 0
    ensures Target(FullFs(), 100, SlotOf(0)) == 0
  {
    FullTarget(100, 0);
  }

  lemma FirstMapped(fs: Fs, i: nat)
    requires Shape(fs) && i < |fs.inodes| && fs.inodes[i].addrs[0] == 0 && FirstClear(fs.used, 0) < |fs.used|
    ensures MapBlock(fs, i, 0).1 == Mapped(FirstClear(fs.used, 0))
  {}
}
