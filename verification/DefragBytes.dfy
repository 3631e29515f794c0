/** The defragmenter's promise said of the bytes of an image alone: from the numbers in the
    superblock and in an inode to the words of each logical block of a file. */
module DefragBytes {
  import opened Arith
  import opened Basics
  import opened DefragImage
  import opened DefragBuild
  import opened DefragFiles

  /** The four-byte number at a byte address, which is a multiple of four. */
  function Number(img: Image, at: int): int { Get(img, at / 4) }

  /** The superblock follows the boot sector of 512 bytes. */
  function BlockSize(img: Image): int { Number(img, 512) }

  function InodeStart(img: Image): int { Number(img, 516) * BlockSize(img) + 1024 }

  function DataStart(img: Image): int { Number(img, 520) * BlockSize(img) + 1024 }

  function BlockStart(img: Image, number: int): int { DataStart(img) + number * BlockSize(img) }

  /** An inode has 100 bytes. */
  function InodeCount(img: Image): int { (DataStart(img) - InodeStart(img)) / 100 }

  function InodeAtByte(img: Image, i: int): int { InodeStart(img) + 100 * i }

  /** Entry k of an index block. */
  function Entry(img: Image, number: int, k: int): int { Number(img, BlockStart(img, number) + 4 * k) }

  /** Blocks the pointers of one inode can lead to, with p pointers to an index block. */
  function Reach(p: int): int { 10 + 4 * p + p * p + p * (p * p) }

  /** The number of logical block j of the inode at this byte address: ten direct pointers,
      four to index blocks, one to index blocks of index blocks, one a level deeper. */
  function Locate(img: Image, at: int, j: int): int
    requires BlockSize(img) >= 4
  {
    var p := BlockSize(img) / 4;
    var (one, two, three) := (j - 10, j - 10 - 4 * p, j - 10 - 4 * p - p * p);
    if j < 10 then Number(img, at + 36 + 4 * j)
    else if one < 4 * p then Entry(img, Number(img, at + 76 + 4 * (one / p)), one % p)
    else if two < p * p then Entry(img, Entry(img, Number(img, at + 92), two / p), two % p)
    else
      assert p * p > 0;
      Deepest(img, Number(img, at + 96), three / (p * p), three % (p * p))
  }

  /** The data block behind two more levels of an index block's entry. */
  function Deepest(img: Image, number: int, k: int, rest: int): int
    requires BlockSize(img) >= 4
  {
    var p := BlockSize(img) / 4;
    Entry(img, Entry(img, Entry(img, number, k), rest / p), rest % p)
  }

  // ----- the geometry

  /** The geometry the program works with is that of the superblock, counted in words. */
  lemma GeometryIs(img: Image)
    requires ValidSuper(SuperOf(img))
    ensures var g := GeometryOf(SuperOf(img));
            && 4 * g.w == BlockSize(img) && g.w == BlockSize(img) / 4 && g.inodeCount == InodeCount(img)
            && (forall i: int :: 4 * g.InodeAddress(i) == InodeAtByte(img, i))
            && (forall n: int :: 4 * g.Address(n) == BlockStart(img, n))
  {
    var (s, g) := (SuperOf(img), GeometryOf(SuperOf(img)));
    assert s[0] == BlockSize(img) && s[1] == Number(img, 516) && s[2] == Number(img, 520);
    var w := g.w;
    assert 4 * w == s[0];
    FourTimes(s[1], w);
    FourTimes(s[2], w);
    assert 4 * g.inodeIndex == InodeStart(img) && 4 * g.dataIndex == DataStart(img);
    QuarterQuotient(g.dataIndex - g.inodeIndex);
    forall n: int ensures 4 * g.Address(n) == BlockStart(img, n) { FourTimes(n, w); }
  }

  lemma FourTimes(n: int, w: int)
    ensures 4 * (n * w) == n * (4 * w)
  {}

  lemma QuarterQuotient(n: int)
    requires n >= 0
    ensures (4 * n) / 100 == n / 25
  {
    QuotientUnique(4 * n, 100, n / 25, 4 * (n % 25));
  }

  lemma EntryIs(img: Image, n: int, k: nat)
    requires ValidSuper(SuperOf(img)) && k < GeometryOf(SuperOf(img)).w
    ensures GeometryOf(SuperOf(img)).BlockAt(img, n)[k] == Entry(img, n, k)
  {
    hide GeometryOf;
    GeometryIs(img);
    var g := GeometryOf(SuperOf(img));
    assert 4 * g.Address(n) == BlockStart(img, n);
    assert BlockStart(img, n) + 4 * k == 4 * (g.Address(n) + k);
  }

  lemma InodeWord(img: Image, i: nat, k: nat)
    requires ValidSuper(SuperOf(img)) && k < INODE_WORDS
    ensures InodeAt(GeometryOf(SuperOf(img)), img, i)[k] == Number(img, InodeAtByte(img, i) + 4 * k)
  {
    hide GeometryOf;
    GeometryIs(img);
    var g := GeometryOf(SuperOf(img));
    assert 4 * g.InodeAddress(i) == InodeAtByte(img, i);
    assert InodeAtByte(img, i) + 4 * k == 4 * (g.InodeAddress(i) + k);
  }

  // ----- the pointers of an inode

  lemma Capacities(g: Geo)
    ensures Capacity(g, 0) == 1 && Capacity(g, 1) == g.w && Capacity(g, 2) == g.w * g.w && Capacity(g, 3) == g.w * (g.w * g.w)
  {}

  /** The first k pointers of one level are passed when j is not behind them. */
  lemma {:induction false} PassPointers(g: Geo, img: Image, roots: seq<Root>, level: nat, k: nat, j: nat)
    requires k <= |roots| && (forall v :: 0 <= v < k ==> roots[v].level == level)
    requires k * Capacity(g, level) <= j < ForestCapacity(g, Levels(roots))
    ensures j - k * Capacity(g, level) < ForestCapacity(g, Levels(roots[k..]))
    ensures ResolveForest(g, img, roots, j) == ResolveForest(g, img, roots[k..], j - k * Capacity(g, level))
    decreases k
  {
    hide Capacity;
    var c := Capacity(g, level);
    if k == 0 {
      assert roots[0..] == roots;
    } else {
      MulPeel(k, c);
      MulMono(0, k - 1, c);
      assert Levels(roots)[1..] == Levels(roots[1..]) && Levels(roots)[0] == level;
      PassPointers(g, img, roots[1..], level, k - 1, j - c);
      assert roots[1..][k - 1..] == roots[k..];
    }
  }

  /** The logical block is behind the first pointer. */
  lemma AtPointer(g: Geo, img: Image, roots: seq<Root>, j: nat)
    requires roots != [] && j < Capacity(g, roots[0].level) && j < ForestCapacity(g, Levels(roots))
    ensures ResolveForest(g, img, roots, j) == Resolve(g, img, roots[0].level, roots[0].val, j)
  {}

  /** Pointer q of a stretch of pointers of one level that starts at pointer v. */
  lemma InStretch(g: Geo, img: Image, roots: seq<Root>, v: nat, q: nat, j: nat)
    requires v + q < |roots| && (forall u :: v <= u <= v + q ==> roots[u].level == roots[v].level)
    requires var c := Capacity(g, roots[v].level); q * c <= j < (q + 1) * c && j < ForestCapacity(g, Levels(roots[v..]))
    ensures var c := Capacity(g, roots[v].level);
            0 <= j - q * c < c && ResolveForest(g, img, roots[v..], j) == Resolve(g, img, roots[v].level, roots[v + q].val, j - q * c)
  {
    hide Capacity, Resolve, ResolveForest, ForestCapacity;
    var c := Capacity(g, roots[v].level);
    assert (q + 1) * c == q * c + c;
    PassPointers(g, img, roots[v..], roots[v].level, q, j);
    assert roots[v..][q..] == roots[v + q..];
    AtPointer(g, img, roots[v + q..], j - q * c);
  }

  lemma FourStretches(g: Geo)
    ensures ForestCapacity(g, LEVELS[15..]) == g.w * (g.w * g.w)
    ensures ForestCapacity(g, LEVELS[14..]) == g.w * g.w + g.w * (g.w * g.w)
    ensures ForestCapacity(g, LEVELS[10..]) == 4 * g.w + g.w * g.w + g.w * (g.w * g.w)
    ensures ForestCapacity(g, LEVELS) == Reach(g.w)
  {
    Capacities(g);
    hide Capacity;
    assert LEVELS[15..] == [3] && LEVELS[14..] == [2, 3] && LEVELS[10..] == [1, 1, 1, 1, 2, 3];
    assert [3][1..] == [] && [2, 3][1..] == [3];
    StretchCapacity(g, 1, 4, [2, 3]);
    StretchCapacity(g, 0, 10, [1, 1, 1, 1, 2, 3]);
    assert seq(4, _ => 1) + [2, 3] == LEVELS[10..];
    assert LEVELS[..10] == seq(10, _ => 0) && LEVELS == LEVELS[..10] + LEVELS[10..];
  }

  lemma {:induction false} StretchCapacity(g: Geo, level: nat, k: nat, rest: seq<nat>)
    ensures ForestCapacity(g, seq(k, _ => level) + rest) == k * Capacity(g, level) + ForestCapacity(g, rest)
  {
    hide Capacity;
    var all := seq(k, _ => level) + rest;
    if k == 0 {
      assert all == rest;
    } else {
      assert all[1..] == seq(k - 1, _ => level) + rest;
      StretchCapacity(g, level, k - 1, rest);
      MulPeel(k, Capacity(g, level));
    }
  }

  // ----- one logical block

  lemma ResolveOne(img: Image, val: int, j: nat)
    requires ValidSuper(SuperOf(img)) && j < Capacity(GeometryOf(SuperOf(img)), 1)
    ensures Resolve(GeometryOf(SuperOf(img)), img, 1, val, j) == Entry(img, val, j)
  {
    hide GeometryOf;
    var g := GeometryOf(SuperOf(img));
    Capacities(g);
    EntryIs(img, val, j);
    assert j / 1 == j && j % 1 == 0;
  }

  lemma ResolveTwo(img: Image, val: int, j: nat)
    requires ValidSuper(SuperOf(img)) && j < Capacity(GeometryOf(SuperOf(img)), 2)
    ensures var w := GeometryOf(SuperOf(img)).w;
            0 <= j / w < w && Resolve(GeometryOf(SuperOf(img)), img, 2, val, j) == Entry(img, Entry(img, val, j / w), j % w)
  {
    hide GeometryOf;
    var g := GeometryOf(SuperOf(img));
    Capacities(g);
    QuotientBelow(j, g.w, g.w);
    EntryIs(img, val, j / g.w);
    ResolveOne(img, g.BlockAt(img, val)[j / g.w], j % g.w);
  }

  lemma ResolveThree(img: Image, val: int, j: nat)
    requires ValidSuper(SuperOf(img)) && j < Capacity(GeometryOf(SuperOf(img)), 3)
    ensures var w := GeometryOf(SuperOf(img)).w;
            && w * w > 0 && BlockSize(img) >= 4
            && Resolve(GeometryOf(SuperOf(img)), img, 3, val, j) == Deepest(img, val, j / (w * w), j % (w * w))
  {
    hide GeometryOf;
    var g := GeometryOf(SuperOf(img));
    GeometryIs(img);
    Capacities(g);
    QuotientBelow(j, g.w * g.w, g.w);
    EntryIs(img, val, j / (g.w * g.w));
    ResolveTwo(img, g.BlockAt(img, val)[j / (g.w * g.w)], j % (g.w * g.w));
  }

  lemma RootLevels(img: Image, i: nat)
    requires ValidSuper(SuperOf(img))
    ensures var roots := RootsOf(InodeAt(GeometryOf(SuperOf(img)), img, i));
            && |roots| == 16 && Levels(roots) == LEVELS
            && (forall v :: 0 <= v < 16 ==> roots[v] == Root(LEVELS[v], Number(img, InodeAtByte(img, i) + 36 + 4 * v)))
            && Levels(roots[10..]) == LEVELS[10..] && Levels(roots[14..]) == LEVELS[14..] && Levels(roots[15..]) == LEVELS[15..]
  {
    hide GeometryOf, InodeAt;
    forall v | 0 <= v < 16 ensures InodeAt(GeometryOf(SuperOf(img)), img, i)[9 + v] == Number(img, InodeAtByte(img, i) + 36 + 4 * v) {
      InodeWord(img, i, 9 + v);
    }
  }

  lemma LocateDirect(img: Image, i: nat, j: nat)
    requires ValidSuper(SuperOf(img)) && j < 10
    ensures var g := GeometryOf(SuperOf(img));
            && j < ForestCapacity(g, LEVELS)
            && ResolveForest(g, img, RootsOf(InodeAt(g, img, i)), j) == Number(img, InodeAtByte(img, i) + 36 + 4 * j)
  {
    hide GeometryOf, Capacity, Resolve, ResolveForest, ForestCapacity, InodeAt, RootsOf;
    var g := GeometryOf(SuperOf(img));
    var roots := RootsOf(InodeAt(g, img, i));
    Capacities(g);
    FourStretches(g);
    RootLevels(img, i);
    assert roots[0..] == roots;
    InStretch(g, img, roots, 0, j, j);
    ResolveNone(g, img, roots[j].val);
  }

  /** Behind the direct pointers. */
  lemma PassDirect(img: Image, i: nat, j: nat)
    requires ValidSuper(SuperOf(img)) && 10 <= j < Reach(GeometryOf(SuperOf(img)).w)
    ensures var g := GeometryOf(SuperOf(img));
            var roots := RootsOf(InodeAt(g, img, i));
            && Levels(roots) == LEVELS && j < ForestCapacity(g, LEVELS)
            && Levels(roots[10..]) == LEVELS[10..] && j - 10 < ForestCapacity(g, LEVELS[10..])
            && ResolveForest(g, img, roots, j) == ResolveForest(g, img, roots[10..], j - 10)
  {
    hide GeometryOf, Capacity, Resolve, ResolveForest, ForestCapacity, InodeAt, RootsOf;
    var g := GeometryOf(SuperOf(img));
    Capacities(g);
    FourStretches(g);
    RootLevels(img, i);
    PassPointers(g, img, RootsOf(InodeAt(g, img, i)), 0, 10, j);
  }

  lemma SinglesFit(g: Geo, one: nat)
    requires one < 4 * g.w
    ensures var q := one / g.w;
            && 0 <= q < 4 && q * g.w <= one < (q + 1) * g.w && one - q * g.w == one % g.w < g.w
            && one < ForestCapacity(g, LEVELS[10..]) && Capacity(g, 1) == g.w
  {
    hide Capacity, ForestCapacity;
    var w := g.w;
    Capacities(g);
    FourStretches(g);
    MulMono(0, w, w);
    MulMono(0, w * w, w);
    QuotientBelow(one, w, 4);
    assert (one / w) * w + one % w == one && (one / w + 1) * w == (one / w) * w + w;
  }

  lemma LocateSingle(img: Image, i: nat, one: nat)
    requires ValidSuper(SuperOf(img)) && one < 4 * GeometryOf(SuperOf(img)).w
    ensures var g := GeometryOf(SuperOf(img));
            var roots := RootsOf(InodeAt(g, img, i));
            && Levels(roots[10..]) == LEVELS[10..] && one < ForestCapacity(g, LEVELS[10..])
            && ResolveForest(g, img, roots[10..], one)
               == Entry(img, Number(img, InodeAtByte(img, i) + 76 + 4 * (one / g.w)), one % g.w)
  {
    hide GeometryOf, Capacity, Resolve, ResolveForest, ForestCapacity, InodeAt, RootsOf, Entry;
    var g := GeometryOf(SuperOf(img));
    var (w, q, roots) := (g.w, one / g.w, RootsOf(InodeAt(g, img, i)));
    SinglesFit(g, one);
    RootLevels(img, i);
    InStretch(g, img, roots, 10, q, one);
    ResolveOne(img, roots[10 + q].val, one % w);
  }

  /** Behind the single pointers. */
  lemma PassSingle(img: Image, i: nat, one: nat)
    requires ValidSuper(SuperOf(img))
    requires var w := GeometryOf(SuperOf(img)).w; 4 * w <= one < 4 * w + w * w + w * (w * w)
    ensures var g := GeometryOf(SuperOf(img));
            var roots := RootsOf(InodeAt(g, img, i));
            && Levels(roots[10..]) == LEVELS[10..] && one < ForestCapacity(g, LEVELS[10..])
            && Levels(roots[14..]) == LEVELS[14..] && one - 4 * g.w < ForestCapacity(g, LEVELS[14..])
            && ResolveForest(g, img, roots[10..], one) == ResolveForest(g, img, roots[14..], one - 4 * g.w)
  {
    hide GeometryOf, Capacity, Resolve, ResolveForest, ForestCapacity, InodeAt, RootsOf;
    var g := GeometryOf(SuperOf(img));
    var roots := RootsOf(InodeAt(g, img, i));
    Capacities(g);
    FourStretches(g);
    RootLevels(img, i);
    PassPointers(g, img, roots[10..], 1, 4, one);
    assert roots[10..][4..] == roots[14..];
  }

  lemma LocateDeeper(img: Image, i: nat, two: nat)
    requires ValidSuper(SuperOf(img)) && var w := GeometryOf(SuperOf(img)).w; two < w * w + w * (w * w)
    ensures var g := GeometryOf(SuperOf(img));
            var (w, roots, at) := (g.w, RootsOf(InodeAt(g, img, i)), InodeAtByte(img, i));
            && Levels(roots[14..]) == LEVELS[14..] && two < ForestCapacity(g, LEVELS[14..]) && w * w > 0 && BlockSize(img) >= 4
            && ResolveForest(g, img, roots[14..], two)
               == if two < w * w then Entry(img, Entry(img, Number(img, at + 92), two / w), two % w)
                  else Deepest(img, Number(img, at + 96), (two - w * w) / (w * w), (two - w * w) % (w * w))
  {
    hide GeometryOf, Capacity, Resolve, ResolveForest, ForestCapacity, InodeAt, RootsOf, Deepest, Entry;
    GeometryIs(img);
    var g := GeometryOf(SuperOf(img));
    var (w, roots) := (g.w, RootsOf(InodeAt(g, img, i)));
    Capacities(g);
    FourStretches(g);
    RootLevels(img, i);
    MulMono(1, w, w);
    if two < w * w {
      AtPointer(g, img, roots[14..], two);
      ResolveTwo(img, roots[14].val, two);
    } else {
      PassPointers(g, img, roots[14..], 2, 1, two);
      assert roots[14..][1..] == roots[15..];
      AtPointer(g, img, roots[15..], two - w * w);
      ResolveThree(img, roots[15].val, two - w * w);
    }
  }

  /** The program's walk leads to the block the numbers on the disk say. */
  lemma LocateIs(img: Image, i: nat, j: nat)
    requires ValidSuper(SuperOf(img)) && j < Reach(BlockSize(img) / 4)
    ensures BlockSize(img) >= 4
    ensures var g := GeometryOf(SuperOf(img));
            && ForestCapacity(g, LEVELS) == Reach(BlockSize(img) / 4)
            && ResolveForest(g, img, RootsOf(InodeAt(g, img, i)), j) == Locate(img, InodeAtByte(img, i), j)
  {
    hide GeometryOf, Capacity, Resolve, ResolveForest, ForestCapacity, Deepest, InodeAt, RootsOf, Entry;
    GeometryIs(img);
    var w := GeometryOf(SuperOf(img)).w;
    FourStretches(GeometryOf(SuperOf(img)));
    if j < 10 {
      LocateDirect(img, i, j);
    } else {
      PassDirect(img, i, j);
      if j - 10 < 4 * w {
        LocateSingle(img, i, j - 10);
      } else {
        PassSingle(img, i, j - 10);
        LocateDeeper(img, i, j - 10 - 4 * w);
      }
    }
  }

  lemma ResolveNone(g: Geo, img: Image, val: int)
    requires 0 < Capacity(g, 0)
    ensures Resolve(g, img, 0, val, 0) == val
  {}

  // ----- what a run promises, in bytes

  lemma WholeBlocks(g: Geo, size: nat, j: nat)
    ensures j < BlockCount(g, size) <==> j * (4 * g.w) < size
  {
    var (b, n) := (4 * g.w, BlockCount(g, size));
    if j < n { MulMono(j, n - 1, b); } else { MulMono(n, j, b); }
  }

  /** The superblock keeps every word but the head of the free list. */
  lemma SuperKept(img: Image)
    requires ValidImage(img)
    ensures var out := Defragment(img);
            && Words(out, 0, 128) == Words(img, 0, 128)
            && forall k :: 0 <= k < 128 && k != 5 ==> Number(out, 512 + 4 * k) == Number(img, 512 + 4 * k)
  {
    hide BuildFs, ValidFs, GeometryOf, ReadFile, ClaimedFrom, PlacedFrom, AllData, AllIndex;
    ReadFsValid(img);
    BuildFsReads(ReadFs(img));
    var out := Defragment(img);
    assert ReadFs(out) == ReadFs(img);
    assert SuperOf(out)[SUPER_FREE_IBLOCK := 0] == SuperOf(img)[SUPER_FREE_IBLOCK := 0];
    forall k | 0 <= k < 128 && k != 5 ensures Number(out, 512 + 4 * k) == Number(img, 512 + 4 * k) {
      assert SuperOf(out)[k] == SuperOf(out)[SUPER_FREE_IBLOCK := 0][k] == SuperOf(img)[k];
      assert (512 + 4 * k) / 4 == 128 + k;
    }
  }

  /** For every inode the superblock leaves room for: the file is live after a run exactly if
      it was before; the first nine words of its inode are the same; and each of its logical
      blocks that begins below its size, and that pointers can lead to, has the same words at
      the place the new pointers lead to as it had at the place the old ones led to. */
  lemma DefragmentKeepsBytes(img: Image, i: nat, j: nat, k: nat)
    requires ValidImage(img) && i < InodeCount(img) && j < Reach(BlockSize(img) / 4) && k < BlockSize(img) / 4
    ensures BlockSize(img) >= 4
    ensures var (out, at) := (Defragment(img), InodeAtByte(img, i));
            && BlockSize(out) == BlockSize(img) && InodeStart(out) == InodeStart(img) && DataStart(out) == DataStart(img)
            && (Number(out, at + 8) > 0 <==> Number(img, at + 8) > 0)
            && (Number(img, at + 8) > 0 ==>
                 && (forall h :: 0 <= h < 9 ==> Number(out, at + 4 * h) == Number(img, at + 4 * h))
                 && (j * BlockSize(img) < Number(img, at + 12) ==>
                      Entry(out, Locate(out, at, j), k) == Entry(img, Locate(img, at, j), k)))
  {
    hide Defragment, ResolveForest, ForestCapacity, GeometryOf, InodeAt, RootsOf, ValidImage, Locate, Reach, Geometry.BlockAt, BlockCount;
    SuperIsValid(img);
    GeometryIs(img);
    var (out, g) := (Defragment(img), GeometryOf(SuperOf(img)));
    DefragmentKeepsFiles(img, i, j);
    SuperIsValid(out);
    SuperKept(img);
    SameStarts(img, out);
    LocateIs(img, i, j);
    LocateIs(out, i, j);
    InodeWord(img, i, 2);
    InodeWord(out, i, 2);
    InodeWord(img, i, 3);
    var (a, b) := (InodeAt(g, img, i), InodeAt(g, out, i));
    if a[NLINK] > 0 {
      forall h | 0 <= h < 9 ensures Number(out, InodeAtByte(img, i) + 4 * h) == Number(img, InodeAtByte(img, i) + 4 * h) {
        InodeWord(img, i, h);
        InodeWord(out, i, h);
        assert b[h] == b[..ROOTS][h] && a[h] == a[..ROOTS][h];
      }
      InodeSize(img, i);
      WholeBlocks(g, a[SIZE], j);
      EntryIs(img, Locate(img, InodeAtByte(img, i), j), k);
      EntryIs(out, Locate(out, InodeAtByte(img, i), j), k);
    }
  }

  lemma SuperIsValid(img: Image)
    requires ValidImage(img)
    ensures ValidSuper(SuperOf(img))
  {}

  lemma InodeSize(img: Image, i: nat)
    requires ValidImage(img) && i < GeometryOf(SuperOf(img)).inodeCount
    ensures var ino := InodeAt(GeometryOf(SuperOf(img)), img, i); ino[NLINK] > 0 ==> ino[SIZE] >= 0
  {}

  lemma SameStarts(img: Image, out: Image)
    requires forall k :: 0 <= k < 128 && k != 5 ==> Number(out, 512 + 4 * k) == Number(img, 512 + 4 * k)
    ensures BlockSize(out) == BlockSize(img) && InodeStart(out) == InodeStart(img) && DataStart(out) == DataStart(img)
  {
    assert Number(out, 512 + 4 * 0) == Number(img, 512 + 4 * 0);
    assert Number(out, 512 + 4 * 1) == Number(img, 512 + 4 * 1);
    assert Number(out, 512 + 4 * 2) == Number(img, 512 + 4 * 2);
  }
}
