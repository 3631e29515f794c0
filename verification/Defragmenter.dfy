/** The defragmenter itself: nested loops over global cursors that copy one
    image into another.  Every method is proved against the reader and builder
    of the other Defrag modules. */
module Defragmenter {
  import opened Arith
  import opened Basics
  import opened DefragImage
  import opened DefragBuild
  import opened DefragFiles
  import opened DefragBytes

  /** One pointer of an index block: linking and filling its subtree is the next
      step of filling the whole block. */
  lemma KidsStep(g: Geo, img: Image, level: nat, val: int, root: int, i: nat, count: nat, s: Cursor, d: seq<int>)
    requires level > 0 && i < g.w && count > 0
    requires s.rest == Contents(g, img, KidsData(g, img, level, val, i, count))
    requires d == TreeData(g, img, level - 1, g.BlockAt(img, val)[i], count)
    ensures var linked := s.(out := PutWord(g, s.out, root, i, Target(level - 1, s)), rest := Contents(g, img, d));
            && d != [] && linked.rest != []
            && (BuildTree(g, level - 1, linked).rest == [] ==>
                 BuildKids(g, level, root, i, s)
                 == BuildKids(g, level, root, i + 1, BuildTree(g, level - 1, linked).(
                      rest := Contents(g, img, KidsData(g, img, level, val, i + 1, count - |d|)))))
  {
    hide BuildTree, BuildKids, TreeData, PutWord, Geometry.BlockAt, Contents, Capacity;
    TreeDataLength(g, img, level - 1, g.BlockAt(img, val)[i], count);
    var e := KidsData(g, img, level, val, i + 1, count - |d|);
    assert KidsData(g, img, level, val, i, count) == d + e;
    ContentsConcat(g, img, d, e);
    var linked := s.(out := PutWord(g, s.out, root, i, Target(level - 1, s)), rest := Contents(g, img, d));
    var more := Contents(g, img, e);
    if BuildTree(g, level - 1, linked).rest == [] {
      BuildTreeSplit(g, level - 1, linked, more);
      assert linked.(rest := linked.rest + more) == s.(out := linked.out);
      KidsUnfold(g, level, root, i, s);
    }
  }

  lemma KidsUnfold(g: Geo, level: nat, root: int, i: nat, s: Cursor)
    requires level > 0 && i < g.w && s.rest != []
    ensures BuildKids(g, level, root, i, s)
         == BuildKids(g, level, root, i + 1,
                      BuildTree(g, level - 1, s.(out := PutWord(g, s.out, root, i, Target(level - 1, s)))))
  {}

  /** Pointers below i of index block `root` are filled: what is left to do from
      cursor c completes what was to be done from cursor s. */
  ghost predicate Filling(g: Geo, img: Image, level: nat, blk: int, root: int, n: nat, s: Cursor, i: nat, count: nat, c: Cursor)
  {
    && level > 0 && i <= g.w
    && n - count == |KidsData(g, img, level, blk, 0, n)| - |KidsData(g, img, level, blk, i, count)|
    && BuildKids(g, level, root, 0, s.(rest := Contents(g, img, KidsData(g, img, level, blk, 0, n))))
       == BuildKids(g, level, root, i, c.(rest := Contents(g, img, KidsData(g, img, level, blk, i, count))))
  }

  /** From cursor s to cursor c the subtree of `val` has been copied. */
  ghost predicate TreeCopied(g: Geo, img: Image, level: nat, val: int, n: nat, s: Cursor, count: nat, c: Cursor)
  {
    && n > 0
    && var d := TreeData(g, img, level, val, n);
       && d != [] && count == n - |d|
       && BuildTree(g, level, s.(rest := Contents(g, img, d))) == c.(rest := [])
  }

  lemma FillingStart(g: Geo, img: Image, level: nat, blk: int, root: int, n: nat, s: Cursor)
    requires level > 0
    ensures Filling(g, img, level, blk, root, n, s, 0, n, s)
  {}

  lemma FillingStep(g: Geo, img: Image, level: nat, blk: int, root: int, n: nat, s: Cursor,
                    i: nat, count: nat, c: Cursor, count': nat, c': Cursor)
    requires Filling(g, img, level, blk, root, n, s, i, count, c) && i < g.w && count > 0
    requires TreeCopied(g, img, level - 1, g.BlockAt(img, blk)[i], count,
                        c.(out := PutWord(g, c.out, root, i, Target(level - 1, c))), count', c')
    ensures Filling(g, img, level, blk, root, n, s, i + 1, count', c')
  {
    hide BuildTree, BuildKids, TreeData, PutWord, Geometry.BlockAt, Contents, Capacity;
    var d := TreeData(g, img, level - 1, g.BlockAt(img, blk)[i], count);
    KidsStep(g, img, level, blk, root, i, count, c.(rest := Contents(g, img, KidsData(g, img, level, blk, i, count))), d);
  }

  lemma FillingDone(g: Geo, img: Image, level: nat, blk: int, n: nat, s: Cursor, i: nat, count: nat, c: Cursor)
    requires n > 0 && Filling(g, img, level, blk, s.ip, n, s.(ip := s.ip + 1), i, count, c) && (i == g.w || count == 0)
    ensures TreeCopied(g, img, level, blk, n, s, count, c)
  {
    TreeDataLength(g, img, level, blk, n);
    assert Contents(g, img, KidsData(g, img, level, blk, i, count)) == [];
  }

  lemma DataBlockCopied(g: Geo, img: Image, val: int, n: nat, s: Cursor)
    requires n > 0
    ensures TreeCopied(g, img, 0, val, n, s,
                       n - 1, Cursor(Put(s.out, g.Address(s.dp), Words(img, g.Address(val), g.w)), s.dp + 1, s.ip, []))
  {
    assert Contents(g, img, [val]) == [g.BlockAt(img, val)];
  }

  /** The first k pointers of an inode are rewritten; `done` are their new values. */
  ghost predicate FileFilling(g: Geo, img: Image, ino0: seq<int>, n: nat, s: Cursor,
                              k: nat, done: seq<int>, ino: seq<int>, count: nat, c: Cursor)
  {
    && |ino0| == INODE_WORDS && k <= N_ROOTS && |done| == k && ino == SetRoots(ino0, done)
    && var roots := RootsOf(ino0);
       && n - count == |ForestData(g, img, roots, n)| - |ForestData(g, img, roots[k..], count)|
       && var (ps, t) := BuildForest(g, LEVELS[k..], c.(rest := Contents(g, img, ForestData(g, img, roots[k..], count))));
          BuildForest(g, LEVELS, s.(rest := Contents(g, img, ForestData(g, img, roots, n)))) == (done + ps, t)
  }

  lemma FileFillingStart(g: Geo, img: Image, ino0: seq<int>, n: nat, s: Cursor)
    requires |ino0| == INODE_WORDS
    ensures FileFilling(g, img, ino0, n, s, 0, [], ino0, n, s)
  {
    var r := BuildForest(g, LEVELS, s.(rest := Contents(g, img, ForestData(g, img, RootsOf(ino0), n))));
    assert [] + r.0 == r.0;
    assert RootsOf(ino0)[0..] == RootsOf(ino0) && LEVELS[0..] == LEVELS;
    assert SetRoots(ino0, []) == ino0;
  }

  lemma FileFillingStep(g: Geo, img: Image, ino0: seq<int>, n: nat, s: Cursor, k: nat, done: seq<int>, ino: seq<int>,
                        count: nat, c: Cursor, count': nat, c': Cursor)
    requires FileFilling(g, img, ino0, n, s, k, done, ino, count, c) && k < N_ROOTS && count > 0
    requires TreeCopied(g, img, LEVELS[k], ino0[ROOTS + k], count, c, count', c')
    ensures FileFilling(g, img, ino0, n, s, k + 1, done + [Target(LEVELS[k], c)],
                        ino[ROOTS + k := Target(LEVELS[k], c)], count', c')
  {
    hide BuildTree, TreeData, Contents, Capacity, ForestCapacity, ForestData, BuildForest, SetRoots, RootsOf, Levels;
    var roots := RootsOf(ino0)[k..];
    var p := Target(LEVELS[k], c);
    RootsFrom(ino0, k);
    ForestStep(g, img, LEVELS[k..], roots, count, c, count', c');
    var ps := BuildForest(g, LEVELS[k + 1..], c'.(rest := Contents(g, img, ForestData(g, img, roots[1..], count')))).0;
    assert done + ([p] + ps) == (done + [p]) + ps;
    OneMoreRoot(ino0, done, p);
  }

  /** From root pointer k on, an inode is what it was. */
  ghost predicate FromSame(ino: seq<int>, ino0: seq<int>, k: nat) {
    |ino| == |ino0| == INODE_WORDS && k <= N_ROOTS && ino[ROOTS + k..] == ino0[ROOTS + k..]
  }

  lemma AllSame(ino: seq<int>)
    requires |ino| == INODE_WORDS
    ensures FromSame(ino, ino, 0)
  {}

  lemma NextSame(ino: seq<int>, ino0: seq<int>, k: nat, p: int)
    requires FromSame(ino, ino0, k) && k < N_ROOTS
    ensures |ino| == |ino0| == INODE_WORDS && ino[ROOTS + k] == ino0[ROOTS + k]
    ensures FromSame(ino[ROOTS + k := p], ino0, k + 1)
  {
    assert ino[ROOTS + k] == ino[ROOTS + k..][0];
    assert ino[ROOTS + k := p][ROOTS + k + 1..] == ino[ROOTS + k..][1..];
  }

  lemma RootsFrom(ino: seq<int>, k: nat)
    requires |ino| == INODE_WORDS && k < N_ROOTS
    ensures var roots := RootsOf(ino)[k..];
            && roots[0] == Root(LEVELS[k], ino[ROOTS + k]) && roots[1..] == RootsOf(ino)[k + 1..]
            && LEVELS[k..] == Levels(roots) && LEVELS[k..][0] == LEVELS[k] && LEVELS[k..][1..] == LEVELS[k + 1..]
  {}

  lemma OneMoreRoot(ino: seq<int>, done: seq<int>, p: int)
    requires |ino| == INODE_WORDS && |done| < N_ROOTS
    ensures |SetRoots(ino, done)| == INODE_WORDS && SetRoots(ino, done + [p]) == SetRoots(ino, done)[ROOTS + |done| := p]
  {}

  lemma ForestStep(g: Geo, img: Image, levels: seq<nat>, roots: seq<Root>, count: nat, c: Cursor, count': nat, c': Cursor)
    requires roots != [] && levels == Levels(roots) && count > 0
    requires TreeCopied(g, img, roots[0].level, roots[0].val, count, c, count', c')
    ensures |ForestData(g, img, roots, count)| == count - count' + |ForestData(g, img, roots[1..], count')|
    ensures var (ps, t) := BuildForest(g, levels[1..], c'.(rest := Contents(g, img, ForestData(g, img, roots[1..], count'))));
            BuildForest(g, levels, c.(rest := Contents(g, img, ForestData(g, img, roots, count))))
            == ([Target(levels[0], c)] + ps, t)
  {
    hide BuildTree, TreeData, Contents, Capacity;
    var d, e := TreeData(g, img, roots[0].level, roots[0].val, count), ForestData(g, img, roots[1..], count');
    assert ForestData(g, img, roots, count) == d + e;
    TreeDataLength(g, img, roots[0].level, roots[0].val, count);
    ContentsConcat(g, img, d, e);
    BuildTreeSplit(g, levels[0], c.(rest := Contents(g, img, d)), Contents(g, img, e));
  }

  /** With nothing left to copy, or no pointer left, the inode and the output are those of BuildFile. */
  lemma FileFillingDone(g: Geo, img: Image, i: nat, ino0: seq<int>, s: Progress, k: nat, done: seq<int>, ino: seq<int>,
                        count: nat, c: Cursor)
    requires |ino0| == INODE_WORDS && ValidInode(ino0) && ino0[NLINK] > 0
    requires FileFilling(g, img, ino0, BlockCount(g, ino0[SIZE]), Cursor(s.out, s.dp, s.ip, []), k, done, ino, count, c)
    requires c.rest == [] && (count == 0 || k == N_ROOTS)
    ensures BuildFile(g, i, Blank(g, ino0), ReadFile(g, img, ino0).blocks, s)
         == Progress(Put(c.out, g.InodeAddress(i), ino), c.dp, c.ip)
  {
    hide TreeData, Contents, BlockCount, ForestCapacity;
    var n, d := BlockCount(g, ino0[SIZE]), FileData(g, img, ino0);
    var blocks := Contents(g, img, d);
    assert Contents(g, img, ForestData(g, img, RootsOf(ino0)[k..], count)) == [];
    assert BuildForest(g, LEVELS[k..], c) == ([], c);
    assert done + [] == done;
    assert BuildForest(g, LEVELS, Cursor(s.out, s.dp, s.ip, blocks)) == (done, c);
    ReadFileValid(g, img, ino0);
    DoneCount(g, ReadFile(g, img, ino0), Cursor(s.out, s.dp, s.ip, blocks));
    RootsSet(ino0, Zeros(RootsUsed(g, LEVELS, n)));
  }

  lemma DoneCount(g: Geo, f: File, c: Cursor)
    requires ValidFile(g, f) && f.Live? && c.rest == f.blocks
    ensures |BuildForest(g, LEVELS, c).0| == RootsUsed(g, LEVELS, BlockCount(g, f.meta[SIZE]))
  {
    hide BlockCount, Blank, RootsUsed, BuildForest;
    var count := BlockCount(g, f.meta[SIZE]);
    RootsUsedCapped(g, LEVELS, count);
    if f.blocks == [] {
      NothingUsed(g, c);
      assert ForestCapacity(g, LEVELS) >= 1;
    } else {
      ForestUses(g, LEVELS, c);
    }
  }

  lemma NothingUsed(g: Geo, c: Cursor)
    requires c.rest == []
    ensures BuildForest(g, LEVELS, c).0 == [] && RootsUsed(g, LEVELS, 0) == 0
  {}

  lemma NextFile(g: Geo, img: Image, files: seq<File>, i: nat, s: Progress)
    requires i < |files| && ValidFiles(g, files) && ValidInode(InodeAt(g, img, i))
    requires files[i] == ReadFile(g, img, InodeAt(g, img, i))
    ensures var ino := InodeAt(g, img, i);
            BuildFrom(g, files, i, s)
            == BuildFrom(g, files, i + 1,
                         if ino[NLINK] <= 0 then s else BuildFile(g, i, Blank(g, ino), ReadFile(g, img, ino).blocks, s))
  {
    hide Blank, BuildFile, FileData, Contents, BlockCount;
  }

  lemma FilesDone(g: Geo, files: seq<File>, s: Progress)
    requires ValidFiles(g, files)
    ensures BuildFrom(g, files, |files|, s) == s
  {}

  ghost function FilesOf(img: Image): (files: seq<File>)
    requires ValidImage(img)
    ensures var g := GeometryOf(SuperOf(img));
            && |files| == g.inodeCount && ValidFiles(g, files)
            && forall j :: 0 <= j < |files| ==> files[j] == ReadFile(g, img, InodeAt(g, img, j))
  {
    ReadFsFiles(img);
    ReadFs(img).files
  }

  lemma ReadFsFiles(img: Image)
    requires ValidImage(img)
    ensures var g, files := GeometryOf(SuperOf(img)), ReadFs(img).files;
            && |files| == g.inodeCount && ValidFiles(g, files)
            && forall j :: 0 <= j < |files| ==> files[j] == ReadFile(g, img, InodeAt(g, img, j))
  {
    hide ReadFile, ValidFile;
    ReadFsValid(img);
    assert GeometryOf(ReadFs(img).super) == GeometryOf(SuperOf(img));
  }

  lemma DefragmentIs(img: Image, files: seq<File>, s: Progress)
    requires ValidImage(img) && files == FilesOf(img)
    requires s == Progress(Put(map[], 0, Words(img, 0, SECTOR_WORDS)), 0, ClaimedInodes(GeometryOf(SuperOf(img)), img, 0))
    ensures var t := BuildFrom(GeometryOf(SuperOf(img)), files, 0, s);
            Defragment(img) == Put(t.out, SECTOR_WORDS, SuperOf(img)[SUPER_FREE_IBLOCK := t.ip])
  {
    hide BuildFrom, ReadFile, ValidFile, ClaimedInodes, ClaimedFrom;
    ReadFsValid(img);
    var fs, g := ReadFs(img), GeometryOf(SuperOf(img));
    assert GeometryOf(fs.super) == g;
    ClaimedAgrees(g, img, files, 0);
    var t := BuildFrom(g, files, 0, s);
    assert fs.super[SUPER_FREE_IBLOCK := t.ip] == SuperOf(img)[SUPER_FREE_IBLOCK := t.ip];
  }

  class Program {
    const istream: Image
    var ostream: Image
    var superblock: seq<int>
    var inode: seq<int>         // the inode being rewritten
    var g: Geo                  // block_size, inode_index, data_index, inode_count
    var blockCount: nat         // blocks of the current file still to copy
    var dataPointer: int
    var inodePointer: int

    constructor (input: Image)
      ensures istream == input && ostream == map[] && dataPointer == 0
    {
      istream, ostream, superblock, inode := input, map[], [], [];
      g := Geometry(1, 256, 256, 0);
      blockCount, dataPointer, inodePointer := 0, 0, 0;
    }

    function Here(): Cursor
      reads this
    {
      Cursor(ostream, dataPointer, inodePointer, [])
    }

    method WriteFromDataBlocks(readAddress: int, writeAddress: int, ghost val: int)
      requires blockCount > 0
      requires readAddress == g.Address(val) && writeAddress == g.Address(dataPointer)
      modifies `ostream, `dataPointer, `blockCount
      ensures TreeCopied(g, istream, 0, val, old(blockCount), old(Here()), blockCount, Here())
    {
      DataBlockCopied(g, istream, val, blockCount, Here());
      var data := Words(istream, readAddress, g.w);
      ostream := Put(ostream, writeAddress, data);
      dataPointer := dataPointer + 1;
      blockCount := blockCount - 1;
    }

    method WriteFromIndirectBlocks(readAddress: int, writeAddress: int, ghost blk: int)
      requires blockCount > 0
      requires readAddress == g.Address(blk) && writeAddress == g.Address(inodePointer)
      modifies `ostream, `dataPointer, `inodePointer, `blockCount
      ensures TreeCopied(g, istream, 1, blk, old(blockCount), old(Here()), blockCount, Here())
    {
      hide TreeCopied, Filling, Capacity, Put, Words, BuildTree, BuildKids, TreeData, KidsData, Contents, Geometry.BlockAt;
      ghost var root, n, s := inodePointer, blockCount, Here();
      inodePointer := inodePointer + 1;
      FillingStart(g, istream, 1, blk, root, n, Here());
      var i := 0;
      while i < g.w && blockCount > 0
        invariant i <= g.w
        invariant Filling(g, istream, 1, blk, root, n, s.(ip := root + 1), i, blockCount, Here())
      {
        ghost var count, c := blockCount, Here();
        var val := Get(istream, readAddress + i);
        EntryOf(g, istream, blk, i);
        ostream := Put(ostream, writeAddress + i, [dataPointer]);
        WriteFromDataBlocks(g.Address(val), g.Address(dataPointer), val);
        FillingStep(g, istream, 1, blk, root, n, s.(ip := root + 1), i, count, c, blockCount, Here());
        i := i + 1;
      }
      FillingDone(g, istream, 1, blk, n, s, i, blockCount, Here());
    }

    method WriteFromDoublyIndirectBlocks(readAddress: int, writeAddress: int, ghost blk: int)
      requires blockCount > 0
      requires readAddress == g.Address(blk) && writeAddress == g.Address(inodePointer)
      modifies `ostream, `dataPointer, `inodePointer, `blockCount
      ensures TreeCopied(g, istream, 2, blk, old(blockCount), old(Here()), blockCount, Here())
    {
      hide TreeCopied, Filling, Capacity, Put, Words, BuildTree, BuildKids, TreeData, KidsData, Contents, Geometry.BlockAt;
      ghost var root, n, s := inodePointer, blockCount, Here();
      inodePointer := inodePointer + 1;
      FillingStart(g, istream, 2, blk, root, n, Here());
      var i := 0;
      while i < g.w && blockCount > 0
        invariant i <= g.w
        invariant Filling(g, istream, 2, blk, root, n, s.(ip := root + 1), i, blockCount, Here())
      {
        ghost var count, c := blockCount, Here();
        var val := Get(istream, readAddress + i);
        EntryOf(g, istream, blk, i);
        ostream := Put(ostream, writeAddress + i, [inodePointer]);
        WriteFromIndirectBlocks(g.Address(val), g.Address(inodePointer), val);
        FillingStep(g, istream, 2, blk, root, n, s.(ip := root + 1), i, count, c, blockCount, Here());
        i := i + 1;
      }
      FillingDone(g, istream, 2, blk, n, s, i, blockCount, Here());
    }

    method WriteFromTriplyIndirectBlocks(readAddress: int, writeAddress: int, ghost blk: int)
      requires blockCount > 0
      requires readAddress == g.Address(blk) && writeAddress == g.Address(inodePointer)
      modifies `ostream, `dataPointer, `inodePointer, `blockCount
      ensures TreeCopied(g, istream, 3, blk, old(blockCount), old(Here()), blockCount, Here())
    {
      hide TreeCopied, Filling, Capacity, Put, Words, BuildTree, BuildKids, TreeData, KidsData, Contents, Geometry.BlockAt;
      ghost var root, n, s := inodePointer, blockCount, Here();
      inodePointer := inodePointer + 1;
      FillingStart(g, istream, 3, blk, root, n, Here());
      var i := 0;
      while i < g.w && blockCount > 0
        invariant i <= g.w
        invariant Filling(g, istream, 3, blk, root, n, s.(ip := root + 1), i, blockCount, Here())
      {
        ghost var count, c := blockCount, Here();
        var val := Get(istream, readAddress + i);
        EntryOf(g, istream, blk, i);
        ostream := Put(ostream, writeAddress + i, [inodePointer]);
        WriteFromDoublyIndirectBlocks(g.Address(val), g.Address(inodePointer), val);
        FillingStep(g, istream, 3, blk, root, n, s.(ip := root + 1), i, count, c, blockCount, Here());
        i := i + 1;
      }
      FillingDone(g, istream, 3, blk, n, s, i, blockCount, Here());
    }

    /** Rewrites the pointers of the live inode in `inode`, copying what they lead to. */
    method RewriteInode(ghost i: nat)
      requires ValidInode(inode) && inode[NLINK] > 0
      modifies `ostream, `dataPointer, `inodePointer, `blockCount, `inode
      ensures |inode| == INODE_WORDS
      ensures BuildFile(g, i, Blank(g, old(inode)), ReadFile(g, istream, old(inode)).blocks,
                        old(Progress(ostream, dataPointer, inodePointer)))
           == Progress(Put(ostream, g.InodeAddress(i), inode), dataPointer, inodePointer)
    {
      hide TreeCopied, FileFilling, BlockCount, BuildFile, ReadFile, Blank, FromSame;
      AllSame(inode);
      ghost var ino0, s := inode, Here();
      blockCount := BlockCount(g, inode[SIZE]);
      ghost var n, k, done := blockCount, 0, [];
      FileFillingStart(g, istream, inode, n, s);
      var v := 0;
      while v < N_DBLOCKS && blockCount > 0
        invariant v <= N_DBLOCKS && k == v
        invariant |inode| == INODE_WORDS && FromSame(inode, ino0, k)
        invariant FileFilling(g, istream, ino0, n, s, k, done, inode, blockCount, Here())
      {
        ghost var count, c, ino := blockCount, Here(), inode;
        NextSame(inode, ino0, k, dataPointer);
        var readAddress, writeAddress := g.Address(inode[ROOTS + v]), g.Address(dataPointer);
        inode := inode[ROOTS + v := dataPointer];
        WriteFromDataBlocks(readAddress, writeAddress, ino0[ROOTS + k]);
        FileFillingStep(g, istream, ino0, n, s, k, done, ino, count, c, blockCount, Here());
        k, done := k + 1, done + [c.dp];
        v := v + 1;
      }
      v := 0;
      while v < N_IBLOCKS && blockCount > 0
        invariant v <= N_IBLOCKS && (blockCount > 0 ==> k == N_DBLOCKS + v) && k <= N_DBLOCKS + N_IBLOCKS
        invariant |inode| == INODE_WORDS && FromSame(inode, ino0, k)
        invariant FileFilling(g, istream, ino0, n, s, k, done, inode, blockCount, Here())
      {
        ghost var count, c, ino := blockCount, Here(), inode;
        NextSame(inode, ino0, k, inodePointer);
        var readAddress, writeAddress := g.Address(inode[ROOTS + N_DBLOCKS + v]), g.Address(inodePointer);
        inode := inode[ROOTS + N_DBLOCKS + v := inodePointer];
        WriteFromIndirectBlocks(readAddress, writeAddress, ino0[ROOTS + k]);
        FileFillingStep(g, istream, ino0, n, s, k, done, ino, count, c, blockCount, Here());
        k, done := k + 1, done + [c.ip];
        v := v + 1;
      }
      if blockCount > 0 {
        ghost var count, c, ino := blockCount, Here(), inode;
        NextSame(inode, ino0, k, inodePointer);
        var readAddress, writeAddress := g.Address(inode[I2BLOCK]), g.Address(inodePointer);
        inode := inode[I2BLOCK := inodePointer];
        WriteFromDoublyIndirectBlocks(readAddress, writeAddress, ino0[ROOTS + k]);
        FileFillingStep(g, istream, ino0, n, s, k, done, ino, count, c, blockCount, Here());
        k, done := k + 1, done + [c.ip];
      }
      if blockCount > 0 {
        ghost var count, c, ino := blockCount, Here(), inode;
        NextSame(inode, ino0, k, inodePointer);
        var readAddress, writeAddress := g.Address(inode[I3BLOCK]), g.Address(inodePointer);
        inode := inode[I3BLOCK := inodePointer];
        WriteFromTriplyIndirectBlocks(readAddress, writeAddress, ino0[ROOTS + k]);
        FileFillingStep(g, istream, ino0, n, s, k, done, ino, count, c, blockCount, Here());
        k, done := k + 1, done + [c.ip];
      }
      FileFillingDone(g, istream, i, ino0, old(Progress(ostream, dataPointer, inodePointer)), k, done, inode, blockCount, Here());
    }

    /** The first pass: how many blocks the live inodes claim. */
    method CalculateSummaryOfBlocks() returns (sum: nat)
      requires ValidInodes(g, istream, 0)
      modifies `inode, `blockCount
      ensures sum == ClaimedInodes(g, istream, 0)
    {
      hide BlockCount;
      sum := 0;
      var i, inodeAddress := 0, g.inodeIndex;
      while i < g.inodeCount
        invariant i <= g.inodeCount && inodeAddress == g.InodeAddress(i)
        invariant ClaimedInodes(g, istream, 0) == sum + ClaimedInodes(g, istream, i)
      {
        inode := Words(istream, inodeAddress, INODE_WORDS);
        assert inode == InodeAt(g, istream, i);
        if inode[NLINK] > 0 {
          blockCount := BlockCount(g, inode[SIZE]);
          sum := sum + blockCount;
        }
        i, inodeAddress := i + 1, inodeAddress + INODE_WORDS;
      }
    }

    /** Copies the boot sector and reads the parameters from the superblock. */
    method Init()
      requires ValidImage(istream)
      modifies `ostream, `superblock, `g
      ensures superblock == SuperOf(istream) && g == GeometryOf(superblock)
      ensures 4 * g.w == superblock[0] && g.inodeCount == (superblock[2] * superblock[0] - superblock[1] * superblock[0]) / 100
      ensures forall i: int :: 4 * g.InodeAddress(i) == superblock[1] * superblock[0] + 1024 + 100 * i
      ensures forall n: int :: 4 * g.Address(n) == superblock[2] * superblock[0] + 1024 + n * superblock[0]
      ensures ostream == Put(old(ostream), 0, Words(istream, 0, SECTOR_WORDS))
    {
      ostream := Put(ostream, 0, Words(istream, 0, SECTOR_WORDS));
      superblock := Words(istream, SECTOR_WORDS, SECTOR_WORDS);
      g := GeometryOf(superblock);
      hide GeometryOf;
      GeometryIs(istream);
    }

    /** One turn of the main loop. */
    method CopyInode(i: nat, inodeAddress: int, ghost files: seq<File>)
      requires ValidImage(istream) && g == GeometryOf(SuperOf(istream)) && files == FilesOf(istream)
      requires i < g.inodeCount && inodeAddress == g.InodeAddress(i)
      modifies `ostream, `dataPointer, `inodePointer, `blockCount, `inode
      ensures BuildFrom(g, files, i, old(Progress(ostream, dataPointer, inodePointer)))
           == BuildFrom(g, files, i + 1, Progress(ostream, dataPointer, inodePointer))
    {
      hide BuildFrom, BuildFile, ReadFile, ValidFile, GeometryOf, ReadFs, Blank;
      InodeIsValid(istream, i);
      inode := Words(istream, inodeAddress, INODE_WORDS);
      NextFile(g, istream, files, i, Progress(ostream, dataPointer, inodePointer));
      if inode[NLINK] > 0 {
        RewriteInode(i);
        ostream := Put(ostream, inodeAddress, inode);
      }
    }

    /** The program: the output holds exactly the defragmented image. */
    method Run()
      requires ValidImage(istream) && ostream == map[] && dataPointer == 0
      modifies this
      ensures ostream == Defragment(istream)
    {
      hide BuildFrom, BuildFile, ReadFile, ValidFile, ClaimedInodes, Defragment, GeometryOf, ReadFs, Put, Words, ValidImage;
      ValidIs(istream);
      Init();
      inodePointer := CalculateSummaryOfBlocks();
      ghost var files := FilesOf(istream);
      ghost var s := Progress(ostream, dataPointer, inodePointer);
      var i, inodeAddress := 0, g.inodeIndex;
      while i < g.inodeCount
        invariant i <= g.inodeCount && inodeAddress == g.InodeAddress(i)
        invariant g == GeometryOf(SuperOf(istream)) && superblock == SuperOf(istream)
        invariant BuildFrom(g, files, 0, s) == BuildFrom(g, files, i, Progress(ostream, dataPointer, inodePointer))
      {
        CopyInode(i, inodeAddress, files);
        i, inodeAddress := i + 1, inodeAddress + INODE_WORDS;
      }
      FilesDone(g, files, Progress(ostream, dataPointer, inodePointer));
      DefragmentIs(istream, files, s);
      superblock := superblock[SUPER_FREE_IBLOCK := inodePointer];
      ostream := Put(ostream, SECTOR_WORDS, superblock);
    }
  }

  lemma EntryOf(g: Geo, img: Image, blk: int, i: nat)
    requires i < g.w
    ensures g.BlockAt(img, blk)[i] == Get(img, g.Address(blk) + i)
  {}

  lemma ValidIs(img: Image)
    requires ValidImage(img)
    ensures ValidSuper(SuperOf(img)) && ValidInodes(GeometryOf(SuperOf(img)), img, 0)
  {}

  lemma InodeIsValid(img: Image, i: nat)
    requires ValidImage(img) && i < GeometryOf(SuperOf(img)).inodeCount
    ensures var g := GeometryOf(SuperOf(img));
            && InodeAt(g, img, i) == Words(img, g.InodeAddress(i), INODE_WORDS)
            && ValidInode(InodeAt(g, img, i)) && i < |FilesOf(img)|
  {}
}
