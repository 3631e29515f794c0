/** A whole file system: what the reader gets out of an image, and the image
    the defragmenter writes for it.  The two undo each other, so a run keeps
    every file, lays the blocks out in two gapless stretches, and changes
    nothing when it is run again. */
module DefragFiles {
  import opened Arith
  import opened Basics
  import opened DefragImage
  import opened DefragBuild

  /** `meta` is the inode with its in-use pointers blanked out. */
  datatype File = Free | Live(meta: seq<int>, blocks: seq<Block>)

  datatype FileSystem = FileSystem(boot: seq<int>, super: seq<int>, files: seq<File>)

  const SECTOR_WORDS := 128
  const SUPER_SIZE := 0
  const SUPER_INODE_OFFSET := 1
  const SUPER_DATA_OFFSET := 2
  const SUPER_FREE_IBLOCK := 5

  /** A superblock whose block size fits the copy buffer and whose regions are in order. */
  predicate ValidSuper(super: seq<int>) {
    && |super| == SECTOR_WORDS
    && 4 <= super[SUPER_SIZE] <= 5000 && super[SUPER_SIZE] % 4 == 0
    && 0 <= super[SUPER_INODE_OFFSET] <= super[SUPER_DATA_OFFSET]
  }

  function GeometryOf(super: seq<int>): Geo
    requires ValidSuper(super)
  {
    var w := super[SUPER_SIZE] / 4;
    var inodeIndex := super[SUPER_INODE_OFFSET] * w + 256;
    var dataIndex := super[SUPER_DATA_OFFSET] * w + 256;
    MulMono(0, super[SUPER_INODE_OFFSET], w);
    MulMono(super[SUPER_INODE_OFFSET], super[SUPER_DATA_OFFSET], w);
    Geometry(w, inodeIndex, dataIndex, (dataIndex - inodeIndex) / INODE_WORDS)
  }

  /** Blocks a file of this many bytes occupies; `size` is not negative. */
  function BlockCount(g: Geo, size: nat): (n: nat)
    ensures n * (4 * g.w) >= size > (n - 1) * (4 * g.w)
  {
    var b := 4 * g.w;
    assert (size / b) * b + size % b == size;
    assert (size / b + 1) * b == (size / b) * b + b && (size / b - 1) * b == (size / b) * b - b;
    if size % b != 0 then size / b + 1 else size / b
  }

  predicate ValidInode(ino: seq<int>) {
    |ino| == INODE_WORDS && (ino[NLINK] > 0 ==> ino[SIZE] >= 0)
  }

  function InodeAt(g: Geo, img: Image, i: nat): (ino: seq<int>)
    ensures |ino| == INODE_WORDS
  {
    Words(img, g.InodeAddress(i), INODE_WORDS)
  }

  function SuperOf(img: Image): (r: seq<int>)
    ensures |r| == SECTOR_WORDS
  {
    Words(img, SECTOR_WORDS, SECTOR_WORDS)
  }

  ghost predicate ValidImage(img: Image) {
    && ValidSuper(SuperOf(img))
    && var g := GeometryOf(SuperOf(img));
       forall i :: 0 <= i < g.inodeCount ==> ValidInode(InodeAt(g, img, i))
  }

  // ----- reading

  function FileData(g: Geo, img: Image, ino: seq<int>): seq<int>
    requires ValidInode(ino) && ino[NLINK] > 0
  {
    ForestData(g, img, RootsOf(ino), BlockCount(g, ino[SIZE]))
  }

  function FileIndex(g: Geo, img: Image, ino: seq<int>): seq<int>
    requires ValidInode(ino) && ino[NLINK] > 0
  {
    ForestIndex(g, img, RootsOf(ino), BlockCount(g, ino[SIZE]))
  }

  /** How many root pointers the walk follows. */
  function RootsUsed(g: Geo, levels: seq<nat>, count: nat): (n: nat)
    ensures n <= |levels|
  {
    if levels == [] || count == 0 then 0
    else 1 + RootsUsed(g, levels[1..], count - Min(count, Capacity(g, levels[0])))
  }

  function SetRoots(ino: seq<int>, vals: seq<int>): (r: seq<int>)
    requires |ino| == INODE_WORDS && |vals| <= N_ROOTS
    ensures |r| == INODE_WORDS && r[..ROOTS] == ino[..ROOTS]
  {
    ino[..ROOTS] + vals + ino[ROOTS + |vals|..]
  }

  function Zeros(n: nat): (r: seq<int>)
    ensures |r| == n
  {
    seq(n, _ => 0)
  }

  function Blank(g: Geo, ino: seq<int>): (r: seq<int>)
    requires ValidInode(ino) && ino[NLINK] > 0
    ensures |r| == INODE_WORDS && r[..ROOTS] == ino[..ROOTS]
  {
    SetRoots(ino, Zeros(RootsUsed(g, LEVELS, BlockCount(g, ino[SIZE]))))
  }

  function ReadFile(g: Geo, img: Image, ino: seq<int>): File
    requires ValidInode(ino)
  {
    if ino[NLINK] <= 0 then Free else Live(Blank(g, ino), Contents(g, img, FileData(g, img, ino)))
  }

  ghost function ReadFs(img: Image): FileSystem
    requires ValidImage(img)
  {
    var g := GeometryOf(SuperOf(img));
    FileSystem(Words(img, 0, SECTOR_WORDS), SuperOf(img)[SUPER_FREE_IBLOCK := 0],
               seq(g.inodeCount, i requires 0 <= i < g.inodeCount => ReadFile(g, img, InodeAt(g, img, i))))
  }

  // ----- building

  predicate ValidFile(g: Geo, f: File) {
    f.Live? ==>
      && ValidInode(f.meta) && f.meta[NLINK] > 0
      && (forall b :: b in f.blocks ==> |b| == g.w)
      && |f.blocks| == Min(BlockCount(g, f.meta[SIZE]), ForestCapacity(g, LEVELS))
      && f.meta == Blank(g, f.meta)
  }

  predicate ValidFs(fs: FileSystem) {
    && |fs.boot| == SECTOR_WORDS && ValidSuper(fs.super) && fs.super[SUPER_FREE_IBLOCK] == 0
    && var g := GeometryOf(fs.super);
       |fs.files| == g.inodeCount && ValidFiles(g, fs.files)
  }

  predicate ValidFiles(g: Geo, files: seq<File>) {
    forall i :: 0 <= i < |files| ==> ValidFile(g, files[i])
  }

  /** Total of the block counts the inodes claim: where index blocks start. */
  function ClaimedFrom(g: Geo, files: seq<File>, i: nat): nat
    requires i <= |files| && ValidFiles(g, files)
    decreases |files| - i
  {
    if i == |files| then 0
    else (if files[i].Free? then 0 else BlockCount(g, files[i].meta[SIZE])) + ClaimedFrom(g, files, i + 1)
  }

  datatype Progress = Progress(out: Image, dp: int, ip: int)

  function BuildFile(g: Geo, i: nat, meta: seq<int>, blocks: seq<Block>, s: Progress): Progress
    requires |meta| == INODE_WORDS
  {
    var (roots, t) := BuildForest(g, LEVELS, Cursor(s.out, s.dp, s.ip, blocks));
    Progress(Put(t.out, g.InodeAddress(i), SetRoots(meta, roots)), t.dp, t.ip)
  }

  function BuildFrom(g: Geo, files: seq<File>, i: nat, s: Progress): Progress
    requires i <= |files| && ValidFiles(g, files)
    decreases |files| - i
  {
    if i == |files| then s
    else BuildFrom(g, files, i + 1, if files[i].Free? then s else BuildFile(g, i, files[i].meta, files[i].blocks, s))
  }

  function BuildFiles(fs: FileSystem): Progress
    requires ValidFs(fs)
  {
    var g := GeometryOf(fs.super);
    BuildFrom(g, fs.files, 0, Progress(Put(map[], 0, fs.boot), 0, ClaimedFrom(g, fs.files, 0)))
  }

  function BuildFs(fs: FileSystem): Image
    requires ValidFs(fs)
  {
    var s := BuildFiles(fs);
    Put(s.out, SECTOR_WORDS, fs.super[SUPER_FREE_IBLOCK := s.ip])
  }

  // ----- the walk stops at the capacity

  lemma {:induction false} TreeCapped(g: Geo, img: Image, level: nat, val: int, count: nat)
    requires count >= Capacity(g, level)
    ensures TreeData(g, img, level, val, count) == TreeData(g, img, level, val, Capacity(g, level))
    ensures TreeIndex(g, img, level, val, count) == TreeIndex(g, img, level, val, Capacity(g, level))
    decreases level, g.w + 1
  {
    if level > 0 {
      KidsCapped(g, img, level, val, 0, count);
    }
  }

  lemma {:induction false} KidsCapped(g: Geo, img: Image, level: nat, val: int, i: nat, count: nat)
    requires level > 0 && i <= g.w && count >= (g.w - i) * Capacity(g, level - 1) >= 0
    ensures KidsData(g, img, level, val, i, count)
         == KidsData(g, img, level, val, i, (g.w - i) * Capacity(g, level - 1))
    ensures KidsIndex(g, img, level, val, i, count)
         == KidsIndex(g, img, level, val, i, (g.w - i) * Capacity(g, level - 1))
    decreases level, g.w - i
  {
    hide Capacity, TreeData, TreeIndex, Geometry.BlockAt;
    var c := Capacity(g, level - 1);
    if i < g.w {
      MulPeel(g.w - i, c);
      MulMono(0, g.w - i - 1, c);
      var kid := g.BlockAt(img, val)[i];
      TreeCapped(g, img, level - 1, kid, count);
      TreeCapped(g, img, level - 1, kid, (g.w - i) * c);
      TreeDataLength(g, img, level - 1, kid, c);
      KidsCapped(g, img, level, val, i + 1, count - c);
    }
  }

  lemma {:induction false} ForestCapped(g: Geo, img: Image, roots: seq<Root>, count: nat)
    ensures var n := Min(count, ForestCapacity(g, Levels(roots)));
            && ForestData(g, img, roots, count) == ForestData(g, img, roots, n)
            && ForestIndex(g, img, roots, count) == ForestIndex(g, img, roots, n)
  {
    hide TreeData, TreeIndex, Capacity;
    if roots != [] && count > 0 {
      assert Levels(roots)[1..] == Levels(roots[1..]);
      var r, c := roots[0], Capacity(g, roots[0].level);
      var n := Min(count, ForestCapacity(g, Levels(roots)));
      TreeDataLength(g, img, r.level, r.val, count);
      if count >= c {
        TreeCapped(g, img, r.level, r.val, count);
        TreeCapped(g, img, r.level, r.val, n);
        ForestCapped(g, img, roots[1..], count - c);
      }
    }
  }

  // ----- root pointers

  lemma {:induction false} ForestUses(g: Geo, levels: seq<nat>, s: Cursor)
    requires s.rest != []
    ensures |BuildForest(g, levels, s).0| == RootsUsed(g, levels, |s.rest|)
  {
    hide ForestCapacity;
    if levels != [] {
      BuildTreeTakes(g, levels[0], s);
      var t := BuildTree(g, levels[0], s);
      if t.rest != [] {
        ForestUses(g, levels[1..], t);
      }
    }
  }

  /** Counting stops at the same root whether or not the blocks beyond the capacity are counted. */
  lemma {:induction false} RootsUsedCapped(g: Geo, levels: seq<nat>, count: nat)
    ensures RootsUsed(g, levels, Min(count, ForestCapacity(g, levels))) == RootsUsed(g, levels, count)
  {
    if levels != [] && count > 0 {
      var c := Capacity(g, levels[0]);
      RootsUsedCapped(g, levels[1..], count - Min(count, c));
    }
  }

  lemma RootsSet(meta: seq<int>, vals: seq<int>)
    requires |meta| == INODE_WORDS && |vals| <= N_ROOTS
    ensures Pair(LEVELS, vals) <= RootsOf(SetRoots(meta, vals))
    ensures forall more: seq<int> :: |more| == |vals| ==> SetRoots(SetRoots(meta, vals), more) == SetRoots(meta, more)
  {
    forall v | 0 <= v < |vals| ensures SetRoots(meta, vals)[ROOTS + v] == vals[v] {}
  }

  /** What one placed file leaves in the image. */
  ghost predicate FileBuilt(g: Geo, i: nat, f: File, s: Progress, t: Progress) {
    && f.Live? && t.ip >= s.ip && t.dp == s.dp + |f.blocks|
    && var ino := InodeAt(g, t.out, i);
       && ValidInode(ino) && ino[NLINK] > 0
       && ReadFile(g, t.out, ino) == f
       && FileData(g, t.out, ino) == Range(s.dp, |f.blocks|)
       && FileIndex(g, t.out, ino) == Range(s.ip, t.ip - s.ip)
  }

  /** Only inode slots from lo up to hi and blocks between the cursors changed. */
  ghost predicate Outside(g: Geo, s: Progress, t: Progress, lo: nat, hi: nat) {
    && (forall k :: k < g.InodeAddress(lo) || g.InodeAddress(hi) <= k < g.dataIndex ==> Get(s.out, k) == Get(t.out, k))
    && forall n :: 0 <= n && !(s.dp <= n < t.dp) && !(s.ip <= n < t.ip) ==> g.BlockAt(s.out, n) == g.BlockAt(t.out, n)
  }

  lemma PutInode(g: Geo, img: Image, i: nat, ino: seq<int>)
    requires i < g.inodeCount && |ino| == INODE_WORDS
    ensures var r := Put(img, g.InodeAddress(i), ino);
            && InodeAt(g, r, i) == ino
            && (forall k :: k < g.InodeAddress(i) || g.InodeAddress(i + 1) <= k ==> Get(img, k) == Get(r, k))
            && (forall n :: 0 <= n ==> g.BlockAt(img, n) == g.BlockAt(r, n))
  {
    var r := Put(img, g.InodeAddress(i), ino);
    assert InodeAt(g, r, i) == ino;
    forall n | 0 <= n ensures g.BlockAt(img, n) == g.BlockAt(r, n) {
      MulMono(0, n, g.w);
    }
  }

  lemma BuildFileForest(g: Geo, i: nat, f: File, s: Progress, u: Cursor, ino: seq<int>)
    requires i < g.inodeCount && ValidFile(g, f) && f.Live?
    requires 0 <= s.dp && s.dp + |f.blocks| <= s.ip
    requires u == BuildForest(g, LEVELS, Cursor(s.out, s.dp, s.ip, f.blocks)).1
    requires ino == SetRoots(f.meta, BuildForest(g, LEVELS, Cursor(s.out, s.dp, s.ip, f.blocks)).0)
    ensures var img := Put(u.out, g.InodeAddress(i), ino);
            && u.dp == s.dp + |f.blocks| && u.ip >= s.ip
            && ForestData(g, img, RootsOf(ino), |f.blocks|) == Range(s.dp, |f.blocks|)
            && ForestIndex(g, img, RootsOf(ino), |f.blocks|) == Range(s.ip, u.ip - s.ip)
            && Contents(g, img, Range(s.dp, |f.blocks|)) == f.blocks
            && Outside(g, s, Progress(img, u.dp, u.ip), i, i + 1)
  {
    hide BuildForest, Geometry.BlockAt, Outside, ForestData, ForestIndex, Words, ForestCapacity;
    var c := Cursor(s.out, s.dp, s.ip, f.blocks);
    var vals := BuildForest(g, LEVELS, c).0;
    RootsSet(f.meta, vals);
    BuildForestReads(g, LEVELS, c, RootsOf(ino));
    PutInode(g, u.out, i, ino);
    var n, img := |f.blocks|, Put(u.out, g.InodeAddress(i), ino);
    var d, x := ForestData(g, u.out, RootsOf(ino), n), ForestIndex(g, u.out, RootsOf(ino), n);
    assert AgreeOn(g, u.out, img, x);
    ForestFrame(g, u.out, img, RootsOf(ino), n);
    ForestDataLength(g, u.out, RootsOf(ino), n);
    assert AgreeOn(g, u.out, img, d);
    ContentsAgree(g, u.out, img, d);
    assert f.blocks[..n] == f.blocks;
    PutOutside(g, i, s, c, u, d, x, ino);
  }

  lemma PutOutside(g: Geo, i: nat, s: Progress, c: Cursor, u: Cursor, d: seq<int>, x: seq<int>, ino: seq<int>)
    requires i < g.inodeCount && |ino| == INODE_WORDS
    requires s == Progress(c.out, c.dp, c.ip) && Built(g, c, u, d, x, -1)
    ensures Outside(g, s, Progress(Put(u.out, g.InodeAddress(i), ino), u.dp, u.ip), i, i + 1)
  {
    PutInode(g, u.out, i, ino);
  }

  lemma BuildFileReads(g: Geo, i: nat, f: File, s: Progress)
    requires i < g.inodeCount && ValidFile(g, f) && f.Live?
    requires 0 <= s.dp && s.dp + |f.blocks| <= s.ip
    ensures var t := BuildFile(g, i, f.meta, f.blocks, s);
            FileBuilt(g, i, f, s, t) && Outside(g, s, t, i, i + 1)
  {
    hide BuildForest, ForestData, ForestIndex, ForestCapacity, Contents, Blank, BlockCount, Outside;
    var c := Cursor(s.out, s.dp, s.ip, f.blocks);
    var (vals, u) := BuildForest(g, LEVELS, c);
    var ino := SetRoots(f.meta, vals);
    var t := BuildFile(g, i, f.meta, f.blocks, s);
    BuildFileForest(g, i, f, s, u, ino);
    PutInode(g, u.out, i, ino);
    ForestCapped(g, t.out, RootsOf(ino), BlockCount(g, f.meta[SIZE]));
    BlankKept(g, f, c);
  }

  lemma BlankKept(g: Geo, f: File, c: Cursor)
    requires ValidFile(g, f) && f.Live? && c.rest == f.blocks
    ensures var ino := SetRoots(f.meta, BuildForest(g, LEVELS, c).0);
            ino[NLINK] > 0 && ino[SIZE] == f.meta[SIZE] && ValidInode(ino) && Blank(g, ino) == f.meta
  {
    var vals := BuildForest(g, LEVELS, c).0;
    var count := BlockCount(g, f.meta[SIZE]);
    if f.blocks == [] {
      assert ForestCapacity(g, LEVELS) >= 1;
    } else {
      ForestUses(g, LEVELS, c);
    }
    RootsUsedCapped(g, LEVELS, count);
    assert |vals| == RootsUsed(g, LEVELS, count);
    var ino := SetRoots(f.meta, vals);
    assert ino[NLINK] == ino[..ROOTS][NLINK] == f.meta[..ROOTS][NLINK];
    assert ino[SIZE] == ino[..ROOTS][SIZE] == f.meta[..ROOTS][SIZE];
    RootsSet(f.meta, vals);
  }

  // ----- all files together

  function PlacedFrom(files: seq<File>, i: nat): nat
    requires i <= |files|
    decreases |files| - i
  {
    if i == |files| then 0 else (if files[i].Free? then 0 else |files[i].blocks|) + PlacedFrom(files, i + 1)
  }

  lemma {:induction false} PlacedWithinClaimed(g: Geo, files: seq<File>, i: nat)
    requires i <= |files| && ValidFiles(g, files)
    ensures PlacedFrom(files, i) <= ClaimedFrom(g, files, i)
    ensures PlacedFrom(files, i) == ClaimedFrom(g, files, i)
       <==> forall j :: i <= j < |files| && files[j].Live?
                        ==> BlockCount(g, files[j].meta[SIZE]) <= ForestCapacity(g, LEVELS)
    decreases |files| - i
  {
    hide BlockCount, ForestCapacity, Blank;
    if i < |files| {
      PlacedWithinClaimed(g, files, i + 1);
    }
  }

  ghost predicate ValidInodes(g: Geo, img: Image, i: nat) {
    forall j :: i <= j < g.inodeCount ==> ValidInode(InodeAt(g, img, j))
  }

  /** Data blocks of all live files from inode i on, in inode and file order. */
  ghost function AllData(g: Geo, img: Image, i: nat): seq<int>
    requires i <= g.inodeCount && ValidInodes(g, img, i)
    decreases g.inodeCount - i
  {
    if i == g.inodeCount then [] else
      var ino := InodeAt(g, img, i);
      (if ino[NLINK] <= 0 then [] else FileData(g, img, ino)) + AllData(g, img, i + 1)
  }

  ghost function AllIndex(g: Geo, img: Image, i: nat): seq<int>
    requires i <= g.inodeCount && ValidInodes(g, img, i)
    decreases g.inodeCount - i
  {
    if i == g.inodeCount then [] else
      var ino := InodeAt(g, img, i);
      (if ino[NLINK] <= 0 then [] else FileIndex(g, img, ino)) + AllIndex(g, img, i + 1)
  }

  ghost predicate FilesBuilt(g: Geo, files: seq<File>, i: nat, s: Progress, t: Progress)
    requires i <= |files| == g.inodeCount
  {
    && ValidInodes(g, t.out, i)
    && (forall j :: i <= j < |files| ==> ReadFile(g, t.out, InodeAt(g, t.out, j)) == files[j])
    && t.ip >= s.ip && t.dp == s.dp + PlacedFrom(files, i)
    && AllData(g, t.out, i) == Range(s.dp, PlacedFrom(files, i))
    && AllIndex(g, t.out, i) == Range(s.ip, t.ip - s.ip)
  }

  lemma SlotKept(g: Geo, s: Progress, t: Progress, lo: nat, hi: nat, j: nat)
    requires j < g.inodeCount && (j < lo || hi <= j) && Outside(g, s, t, lo, hi)
    ensures InodeAt(g, s.out, j) == InodeAt(g, t.out, j)
  {}

  lemma FileKept(g: Geo, i: nat, f: File, s: Progress, t: Progress, u: Progress, hi: nat)
    requires i < g.inodeCount && FileBuilt(g, i, f, s, t) && Outside(g, t, u, i + 1, hi)
    requires 0 <= s.dp && s.dp + |f.blocks| <= u.dp <= s.ip
    ensures FileBuilt(g, i, f, s, t.(out := u.out))
  {
    hide RootsOf, BlockCount, Blank;
    SlotKept(g, t, u, i + 1, hi, i);
    var ino := InodeAt(g, t.out, i);
    var roots, count := RootsOf(ino), BlockCount(g, ino[SIZE]);
    forall n | n in FileIndex(g, t.out, ino) ensures g.BlockAt(t.out, n) == g.BlockAt(u.out, n) {
      assert s.ip <= n < t.ip;
    }
    ForestFrame(g, t.out, u.out, roots, count);
    forall n | n in FileData(g, t.out, ino) ensures g.BlockAt(t.out, n) == g.BlockAt(u.out, n) {
      assert s.dp <= n < t.dp;
    }
    ContentsAgree(g, t.out, u.out, FileData(g, t.out, ino));
  }

  lemma MetaWords(g: Geo, f: File)
    requires ValidFile(g, f)
    ensures f.Live? ==> |f.meta| == INODE_WORDS
  {}

  lemma BuiltNone(g: Geo, files: seq<File>, s: Progress)
    requires |files| == g.inodeCount && ValidFiles(g, files)
    ensures BuildFrom(g, files, |files|, s) == s
    ensures FilesBuilt(g, files, |files|, s, s) && Outside(g, s, s, |files|, |files|)
  {}

  lemma {:induction false} BuildFromReads(g: Geo, files: seq<File>, i: nat, s: Progress)
    requires i <= |files| == g.inodeCount && ValidFiles(g, files)
    requires 0 <= s.dp && s.dp + PlacedFrom(files, i) <= s.ip
    requires forall j :: i <= j < |files| ==> InodeAt(g, s.out, j)[NLINK] == 0
    ensures var t := BuildFrom(g, files, i, s); FilesBuilt(g, files, i, s, t) && Outside(g, s, t, i, |files|)
    decreases |files| - i
  {
    hide ValidFile, FileData, FileIndex, BuildFile, FileBuilt, FilesBuilt, Outside, Blank, InodeAt;
    if i == |files| {
      BuiltNone(g, files, s);
    } else {
      var f := files[i];
      MetaWords(g, f);
      var t := if f.Free? then s else BuildFile(g, i, f.meta, f.blocks, s);
      if f.Live? {
        BuildFileReads(g, i, f, s);
      }
      LaterSlotsFree(g, files, i, s, t);
      BuildFromReads(g, files, i + 1, t);
      BuildFromStep(g, files, i, s, t, BuildFrom(g, files, i + 1, t));
    }
  }

  lemma LaterSlotsFree(g: Geo, files: seq<File>, i: nat, s: Progress, t: Progress)
    requires i < |files| == g.inodeCount
    requires if files[i].Free? then t == s else FileBuilt(g, i, files[i], s, t) && Outside(g, s, t, i, i + 1)
    requires forall j :: i <= j < |files| ==> InodeAt(g, s.out, j)[NLINK] == 0
    ensures forall j :: i + 1 <= j < |files| ==> InodeAt(g, t.out, j)[NLINK] == 0
    ensures t.ip >= s.ip && t.dp == s.dp + (if files[i].Free? then 0 else |files[i].blocks|)
  {
    if files[i].Live? {
      forall j | i + 1 <= j < |files| ensures InodeAt(g, t.out, j)[NLINK] == 0 {
        SlotKept(g, s, t, i, i + 1, j);
      }
    }
  }

  lemma BuildFromStep(g: Geo, files: seq<File>, i: nat, s: Progress, t: Progress, u: Progress)
    requires i < |files| == g.inodeCount
    requires if files[i].Free? then t == s && InodeAt(g, s.out, i)[NLINK] == 0
             else FileBuilt(g, i, files[i], s, t) && Outside(g, s, t, i, i + 1)
    requires FilesBuilt(g, files, i + 1, t, u) && Outside(g, t, u, i + 1, |files|)
    requires 0 <= s.dp && s.dp + PlacedFrom(files, i) <= s.ip
    ensures FilesBuilt(g, files, i, s, u) && Outside(g, s, u, i, |files|)
  {
    hide Outside, FileData, FileIndex, Blank, Contents, AllData, AllIndex, PlacedFrom, InodeAt, BlockCount;
    var f := files[i];
    SlotKept(g, t, u, i + 1, |files|, i);
    PlacedPeel(files, i);
    if f.Live? {
      FileKept(g, i, f, s, t, u, |files|);
      OutsideTwice(g, s, t, u, i, |files|);
    } else {
      OutsideWider(g, t, u, i, |files|);
    }
    AllPeel(g, u.out, i);
    RangesJoin(s.dp, t.dp, u.dp);
    RangesJoin(s.ip, t.ip, u.ip);
  }

  lemma PlacedPeel(files: seq<File>, i: nat)
    requires i < |files|
    ensures PlacedFrom(files, i) == (if files[i].Free? then 0 else |files[i].blocks|) + PlacedFrom(files, i + 1)
  {}

  lemma AllPeel(g: Geo, img: Image, i: nat)
    requires i < g.inodeCount && ValidInode(InodeAt(g, img, i)) && ValidInodes(g, img, i + 1)
    ensures ValidInodes(g, img, i)
    ensures var ino := InodeAt(g, img, i);
            && AllData(g, img, i) == (if ino[NLINK] <= 0 then [] else FileData(g, img, ino)) + AllData(g, img, i + 1)
            && AllIndex(g, img, i) == (if ino[NLINK] <= 0 then [] else FileIndex(g, img, ino)) + AllIndex(g, img, i + 1)
  {}

  lemma OutsideTwice(g: Geo, s: Progress, t: Progress, u: Progress, i: nat, hi: nat)
    requires i < hi <= g.inodeCount && Outside(g, s, t, i, i + 1) && Outside(g, t, u, i + 1, hi)
    requires s.dp <= t.dp <= u.dp && s.ip <= t.ip <= u.ip
    ensures Outside(g, s, u, i, hi)
  {}

  lemma OutsideWider(g: Geo, s: Progress, t: Progress, i: nat, hi: nat)
    requires i < hi <= g.inodeCount && Outside(g, s, t, i + 1, hi)
    ensures Outside(g, s, t, i, hi)
  {}

  lemma RangesJoin(a: int, b: int, c: int)
    requires a <= b <= c
    ensures Range(a, b - a) + Range(b, c - b) == Range(a, c - a)
  {}

  // ----- the whole image

  /** The image built for a file system reads back as that file system; its data
      blocks are numbered 0, 1, ... in inode and file order, its index blocks
      follow the claimed data blocks without a gap, and the superblock's free
      block pointer ends up right behind them. */
  lemma BuildFsReads(fs: FileSystem)
    requires ValidFs(fs)
    ensures var img, g, claimed := BuildFs(fs), GeometryOf(fs.super), ClaimedFrom(GeometryOf(fs.super), fs.files, 0);
            && ValidImage(img) && GeometryOf(SuperOf(img)) == g
            && ReadFs(img) == fs
            && ValidInodes(g, img, 0)
            && AllData(g, img, 0) == Range(0, PlacedFrom(fs.files, 0))
            && SuperOf(img)[SUPER_FREE_IBLOCK] >= claimed
            && AllIndex(g, img, 0) == Range(claimed, SuperOf(img)[SUPER_FREE_IBLOCK] - claimed)
  {
    hide BuildFrom, PlacedFrom, ClaimedFrom, ReadFile, FileData, FileIndex, AllData, AllIndex, Blank, BlockCount;
    var g, files := GeometryOf(fs.super), fs.files;
    var s := Progress(Put(map[], 0, fs.boot), 0, ClaimedFrom(g, files, 0));
    var t := BuildFrom(g, files, 0, s);
    PlacedWithinClaimed(g, files, 0);
    BuildFromReads(g, files, 0, s);
    var super := fs.super[SUPER_FREE_IBLOCK := t.ip];
    var img := Put(t.out, SECTOR_WORDS, super);
    SuperPut(g, t.out, super);
    assert super[SUPER_FREE_IBLOCK := 0] == fs.super;
    BootKept(g, s, t, fs.boot, super, |files|);
    ImageKept(g, t.out, img, 0);
    FilesRead(g, files, fs, img);
  }

  lemma FilesRead(g: Geo, files: seq<File>, fs: FileSystem, img: Image)
    requires |files| == g.inodeCount && fs.files == files
    requires forall j :: 0 <= j < g.inodeCount
                         ==> ValidInode(InodeAt(g, img, j)) && ReadFile(g, img, InodeAt(g, img, j)) == files[j]
    requires ValidSuper(SuperOf(img)) && GeometryOf(SuperOf(img)) == g
    requires Words(img, 0, SECTOR_WORDS) == fs.boot && SuperOf(img)[SUPER_FREE_IBLOCK := 0] == fs.super
    ensures ValidImage(img) && ReadFs(img) == fs
  {
    hide ReadFile;
    assert ReadFs(img).files == files;
  }

  lemma BootKept(g: Geo, s: Progress, t: Progress, boot: seq<int>, super: seq<int>, hi: nat)
    requires |boot| == |super| == SECTOR_WORDS && s.out == Put(map[], 0, boot) && Outside(g, s, t, 0, hi)
    ensures var img := Put(t.out, SECTOR_WORDS, super);
            Words(img, 0, SECTOR_WORDS) == boot && SuperOf(img) == super
  {
    var img := Put(t.out, SECTOR_WORDS, super);
    forall k | 0 <= k < SECTOR_WORDS ensures Words(img, 0, SECTOR_WORDS)[k] == boot[k] {
      assert Get(s.out, k) == Get(t.out, k);
    }
  }

  lemma SuperPut(g: Geo, img: Image, super: seq<int>)
    requires |super| == SECTOR_WORDS
    ensures SameFrom(g, img, Put(img, SECTOR_WORDS, super))
  {
    var r := Put(img, SECTOR_WORDS, super);
    forall n | 0 <= n ensures g.BlockAt(img, n) == g.BlockAt(r, n) {
      MulMono(0, n, g.w);
    }
  }

  ghost predicate SameFrom(g: Geo, a: Image, b: Image) {
    && (forall k :: g.inodeIndex <= k ==> Get(a, k) == Get(b, k))
    && forall n :: 0 <= n ==> g.BlockAt(a, n) == g.BlockAt(b, n)
  }

  ghost predicate NonNegative(list: seq<int>) {
    forall n :: n in list ==> n >= 0
  }

  lemma NonNegativeParts(x: seq<int>, y: seq<int>)
    requires NonNegative(x + y)
    ensures NonNegative(x) && NonNegative(y)
  {
    forall n | n in x || n in y ensures n >= 0 {
      assert n in x + y;
    }
  }

  /** Words below the inodes matter to no file. */
  lemma {:induction false} ImageKept(g: Geo, a: Image, b: Image, i: nat)
    requires i <= g.inodeCount && ValidInodes(g, a, i) && SameFrom(g, a, b)
    requires NonNegative(AllData(g, a, i)) && NonNegative(AllIndex(g, a, i))
    ensures ValidInodes(g, b, i)
    ensures forall j :: i <= j < g.inodeCount
                        ==> InodeAt(g, a, j) == InodeAt(g, b, j)
                            && ReadFile(g, a, InodeAt(g, a, j)) == ReadFile(g, b, InodeAt(g, b, j))
    ensures AllData(g, a, i) == AllData(g, b, i) && AllIndex(g, a, i) == AllIndex(g, b, i)
    decreases g.inodeCount - i
  {
    hide FileData, FileIndex, ReadFile, Geometry.BlockAt;
    if i < g.inodeCount {
      var ino := InodeAt(g, a, i);
      assert InodeAt(g, b, i) == ino;
      var d, x := AllData(g, a, i + 1), AllIndex(g, a, i + 1);
      if ino[NLINK] > 0 {
        assert AllData(g, a, i) == FileData(g, a, ino) + d && AllIndex(g, a, i) == FileIndex(g, a, ino) + x;
        NonNegativeParts(FileData(g, a, ino), d);
        NonNegativeParts(FileIndex(g, a, ino), x);
        FileSame(g, a, b, ino);
      } else {
        assert AllData(g, a, i) == d && AllIndex(g, a, i) == x;
        FreeSame(g, a, b, ino);
      }
      ImageKept(g, a, b, i + 1);
    }
  }

  lemma FreeSame(g: Geo, a: Image, b: Image, ino: seq<int>)
    requires ValidInode(ino) && ino[NLINK] <= 0
    ensures ReadFile(g, a, ino) == ReadFile(g, b, ino)
  {}

  lemma FileSame(g: Geo, a: Image, b: Image, ino: seq<int>)
    requires ValidInode(ino) && ino[NLINK] > 0 && SameFrom(g, a, b)
    requires NonNegative(FileData(g, a, ino)) && NonNegative(FileIndex(g, a, ino))
    ensures FileData(g, a, ino) == FileData(g, b, ino) && FileIndex(g, a, ino) == FileIndex(g, b, ino)
    ensures ReadFile(g, a, ino) == ReadFile(g, b, ino)
  {
    hide RootsOf, BlockCount, Blank, ForestData, ForestIndex, Geometry.BlockAt;
    assert AgreeOn(g, a, b, FileIndex(g, a, ino));
    ForestFrame(g, a, b, RootsOf(ino), BlockCount(g, ino[SIZE]));
    ContentsAgree(g, a, b, FileData(g, a, ino));
  }

  // ----- what a run promises

  lemma BlankFacts(g: Geo, ino: seq<int>)
    requires ValidInode(ino) && ino[NLINK] > 0
    ensures var meta := Blank(g, ino);
            && |meta| == INODE_WORDS && meta[NLINK] == ino[NLINK] && meta[SIZE] == ino[SIZE] && Blank(g, meta) == meta
  {
    hide BlockCount, RootsUsed;
    var meta := Blank(g, ino);
    RootsSet(ino, Zeros(RootsUsed(g, LEVELS, BlockCount(g, ino[SIZE]))));
    assert meta[NLINK] == meta[..ROOTS][NLINK] == ino[..ROOTS][NLINK];
    assert meta[SIZE] == meta[..ROOTS][SIZE] == ino[..ROOTS][SIZE];
  }

  lemma ReadFileValid(g: Geo, img: Image, ino: seq<int>)
    requires ValidInode(ino)
    ensures ValidFile(g, ReadFile(g, img, ino))
  {
    hide BlockCount, Blank, RootsOf, ForestData, ForestCapacity, Contents;
    if ino[NLINK] > 0 {
      BlankFacts(g, ino);
      ForestDataLength(g, img, RootsOf(ino), BlockCount(g, ino[SIZE]));
    }
  }

  lemma ReadFsValid(img: Image)
    requires ValidImage(img)
    ensures ValidFs(ReadFs(img))
  {
    hide ReadFile, ValidFile;
    var g := GeometryOf(SuperOf(img));
    forall i | 0 <= i < g.inodeCount ensures ValidFile(g, ReadFs(img).files[i]) {
      ReadFileValid(g, img, InodeAt(g, img, i));
    }
  }

  ghost function Defragment(img: Image): Image
    requires ValidImage(img)
  {
    ReadFsValid(img);
    BuildFs(ReadFs(img))
  }

  /** Every file survives: live inodes stay live with the same metadata, and each
      logical block resolves, in the new image, to a block with the same words. */
  lemma DefragmentKeepsFiles(img: Image, i: nat, j: nat)
    requires ValidImage(img) && i < GeometryOf(SuperOf(img)).inodeCount
    ensures var out, g := Defragment(img), GeometryOf(SuperOf(img));
            && ValidImage(out) && GeometryOf(SuperOf(out)) == g
            && var a, b := InodeAt(g, img, i), InodeAt(g, out, i);
               && (a[NLINK] > 0 <==> b[NLINK] > 0)
               && (a[NLINK] > 0 ==>
                    && b[..ROOTS] == a[..ROOTS]
                    && (j < Min(BlockCount(g, a[SIZE]), ForestCapacity(g, LEVELS)) ==>
                         g.BlockAt(out, ResolveForest(g, out, RootsOf(b), j))
                         == g.BlockAt(img, ResolveForest(g, img, RootsOf(a), j))))
  {
    hide BuildFs, BlockCount, ForestCapacity, ForestData, ResolveForest, ValidFs, ClaimedFrom, PlacedFrom, AllData, AllIndex, Geometry.BlockAt;
    ReadFsValid(img);
    BuildFsReads(ReadFs(img));
    var out, g := Defragment(img), GeometryOf(SuperOf(img));
    var a, b := InodeAt(g, img, i), InodeAt(g, out, i);
    assert ReadFile(g, img, a) == ReadFs(img).files[i] == ReadFs(out).files[i] == ReadFile(g, out, b);
    if a[NLINK] > 0 {
      assert b[..ROOTS] == Blank(g, b)[..ROOTS] == Blank(g, a)[..ROOTS] == a[..ROOTS];
      assert b[SIZE] == b[..ROOTS][SIZE] == a[..ROOTS][SIZE];
      if j < Min(BlockCount(g, a[SIZE]), ForestCapacity(g, LEVELS)) {
        ForestDataResolves(g, img, RootsOf(a), BlockCount(g, a[SIZE]), j);
        ForestDataResolves(g, out, RootsOf(b), BlockCount(g, b[SIZE]), j);
        assert Contents(g, img, FileData(g, img, a))[j] == Contents(g, out, FileData(g, out, b))[j];
      }
    }
  }

  /** Defragmenting a defragmented image changes no word of it. */
  lemma DefragmentTwice(img: Image)
    requires ValidImage(img)
    ensures ValidImage(Defragment(img)) && Defragment(Defragment(img)) == Defragment(img)
  {
    hide BuildFs, ReadFs, ValidFs, GeometryOf, ClaimedFrom, PlacedFrom, AllData, AllIndex, ValidInodes;
    ReadFsValid(img);
    BuildFsReads(ReadFs(img));
  }

  /** Blocks claimed by the live inodes from number i on: the first pass over the inodes. */
  function ClaimedInodes(g: Geo, img: Image, i: nat): nat
    requires i <= g.inodeCount && ValidInodes(g, img, i)
    decreases g.inodeCount - i
  {
    if i == g.inodeCount then 0 else
      var ino := InodeAt(g, img, i);
      assert ValidInode(ino);
      (if ino[NLINK] <= 0 then 0 else BlockCount(g, ino[SIZE])) + ClaimedInodes(g, img, i + 1)
  }

  lemma BlankKeepsHead(g: Geo, ino: seq<int>)
    requires ValidInode(ino) && ino[NLINK] > 0
    ensures Blank(g, ino)[SIZE] == ino[SIZE] && Blank(g, ino)[NLINK] == ino[NLINK]
  {
    var r := Blank(g, ino);
    assert r[SIZE] == r[..ROOTS][SIZE] && r[NLINK] == r[..ROOTS][NLINK];
  }

  /** The files of an image claim what its inodes claim. */
  lemma {:induction false} ClaimedAgrees(g: Geo, img: Image, files: seq<File>, i: nat)
    requires i <= |files| == g.inodeCount && ValidFiles(g, files) && ValidInodes(g, img, 0)
    requires forall j :: 0 <= j < |files| ==> files[j] == ReadFile(g, img, InodeAt(g, img, j))
    ensures ClaimedFrom(g, files, i) == ClaimedInodes(g, img, i)
    ensures (forall j :: i <= j < |files| && files[j].Live?
                         ==> BlockCount(g, files[j].meta[SIZE]) <= ForestCapacity(g, LEVELS))
       <==> (forall j :: i <= j < |files| && InodeAt(g, img, j)[NLINK] > 0
                         ==> BlockCount(g, InodeAt(g, img, j)[SIZE]) <= ForestCapacity(g, LEVELS))
    decreases |files| - i
  {
    hide BlockCount, ForestCapacity, Blank, FileData, ValidFile, Contents;
    if i < |files| {
      var ino := InodeAt(g, img, i);
      if ino[NLINK] > 0 {
        BlankKeepsHead(g, ino);
      }
      ClaimedAgrees(g, img, files, i + 1);
    }
  }

  ghost function Claimed(img: Image): nat
    requires ValidImage(img)
  {
    ClaimedInodes(GeometryOf(SuperOf(img)), img, 0)
  }

  ghost predicate WithinCapacity(img: Image)
    requires ValidImage(img)
  {
    var g := GeometryOf(SuperOf(img));
    forall i :: 0 <= i < g.inodeCount && InodeAt(g, img, i)[NLINK] > 0
                ==> BlockCount(g, InodeAt(g, img, i)[SIZE]) <= ForestCapacity(g, LEVELS)
  }

  /** Data blocks are numbered from 0 in inode and file order and index blocks
      from the claimed total up to free_iblock, each number once.  The data
      blocks reach the claimed total exactly when no live file claims more
      blocks than its sixteen pointers can lead to. */
  lemma DefragmentLayout(img: Image)
    requires ValidImage(img)
    ensures var out, g, n := Defragment(img), GeometryOf(SuperOf(img)), Claimed(img);
            && ValidImage(out) && ValidInodes(g, out, 0)
            && |AllData(g, out, 0)| <= n <= SuperOf(out)[SUPER_FREE_IBLOCK]
            && AllData(g, out, 0) == Range(0, |AllData(g, out, 0)|)
            && AllIndex(g, out, 0) == Range(n, SuperOf(out)[SUPER_FREE_IBLOCK] - n)
            && (|AllData(g, out, 0)| == n <==> WithinCapacity(img))
  {
    hide BuildFs, ReadFile, ValidFile, ForestCapacity, ForestData, Geometry.BlockAt, BlockCount, AllData, AllIndex,
         ClaimedInodes, ClaimedFrom, PlacedFrom, InodeAt;
    ReadFsValid(img);
    var fs, g := ReadFs(img), GeometryOf(SuperOf(img));
    assert GeometryOf(fs.super) == g;
    BuildFsReads(fs);
    PlacedWithinClaimed(g, fs.files, 0);
    ClaimedAgrees(g, img, fs.files, 0);
  }

  // ----- a file larger than its pointers reach

  lemma {:induction false} SingleWordCapacity(g: Geo, level: nat)
    requires g.w == 1
    ensures Capacity(g, level) == 1
  {
    if level > 0 { SingleWordCapacity(g, level - 1); }
  }

  lemma {:induction false} SingleWordForest(g: Geo, levels: seq<nat>)
    requires g.w == 1
    ensures ForestCapacity(g, levels) == |levels|
  {
    if levels != [] {
      SingleWordCapacity(g, levels[0]);
      SingleWordForest(g, levels[1..]);
    }
  }

  /** Blocks of four bytes, and one live inode of 68 bytes. */
  function OversizedImage(): Image {
    map[SECTOR_WORDS + SUPER_SIZE := 4, SECTOR_WORDS + SUPER_DATA_OFFSET := INODE_WORDS, 256 + NLINK := 1, 256 + SIZE := 68]
  }

  lemma OversizedValid()
    ensures var img := OversizedImage();
            && ValidSuper(SuperOf(img)) && GeometryOf(SuperOf(img)) == Geometry(1, 256, 256 + INODE_WORDS, 1)
            && InodeAt(Geometry(1, 256, 256 + INODE_WORDS, 1), img, 0)[NLINK] == 1
            && InodeAt(Geometry(1, 256, 256 + INODE_WORDS, 1), img, 0)[SIZE] == 68
            && ValidImage(img)
  {
    var img, g := OversizedImage(), Geometry(1, 256, 256 + INODE_WORDS, 1);
    assert Get(img, SECTOR_WORDS + SUPER_SIZE) == 4 && Get(img, SECTOR_WORDS + SUPER_DATA_OFFSET) == INODE_WORDS;
    assert g.InodeAddress(0) == 256 && Get(img, 256 + NLINK) == 1 && Get(img, 256 + SIZE) == 68;
    assert InodeAt(g, img, 0)[SIZE] == Get(img, 256 + SIZE);
  }

  /** This file claims seventeen blocks and its pointers lead to fewer: the total claimed is
      not reached, and a block no file has is left before the index blocks. */
  lemma OversizedFile()
    ensures var img := OversizedImage();
            && ValidImage(img) && !WithinCapacity(img) && Claimed(img) == 17
            && var out, g := Defragment(img), GeometryOf(SuperOf(img));
               ValidImage(out) && ValidInodes(g, out, 0) && |AllData(g, out, 0)| < Claimed(img)
  {
    hide Defragment, AllData, ForestCapacity, SuperOf, Capacity;
    OversizedValid();
    var img, g := OversizedImage(), Geometry(1, 256, 256 + INODE_WORDS, 1);
    SingleWordForest(g, LEVELS);
    DefragmentLayout(img);
    assert BlockCount(g, 68) == 17;
    assert ClaimedInodes(g, img, 1) == 0;
  }
}
