/** A disk image as the defragmenter sees it, and the reader that walks it.

    The image is a sparse store of 32-bit words: a word that was never written
    reads as zero, as a hole in a file does.  The reader is the tree walk of
    `order` and `dfs`: which data blocks a file owns, in order, and which index
    blocks lead to them. */
module DefragImage {
  import opened Arith
  import opened Basics

  type Image = map<int, int>
  type Block = seq<int>

  const INODE_WORDS := 25
  const NLINK := 2
  const SIZE := 3
  const ROOTS := 9       // word of dblocks[0] inside an inode
  const N_DBLOCKS := 10
  const N_IBLOCKS := 4
  const I2BLOCK := 23
  const I3BLOCK := 24
  const N_ROOTS := 16    // ten direct, four single, one double, one triple

  // ----- words and blocks

  function Get(img: Image, a: int): int { if a in img then img[a] else 0 }

  function Words(img: Image, a: int, n: nat): (r: seq<int>)
    ensures |r| == n
  {
    seq(n, i => Get(img, a + i))
  }

  function Put(img: Image, a: int, ws: seq<int>): (r: Image)
    ensures forall k :: Get(r, k) == if a <= k < a + |ws| then ws[k - a] else Get(img, k)
  {
    img + (map k {:trigger Get(img, k)} | a <= k < a + |ws| :: ws[k - a])
  }

  /** `w` is the block size in words; addresses count words. */
  datatype Geometry = Geometry(w: nat, inodeIndex: int, dataIndex: int, inodeCount: nat)
  {
    predicate Valid() {
      1 <= w && 256 <= inodeIndex && inodeIndex + INODE_WORDS * inodeCount <= dataIndex
    }

    function Address(number: int): int { dataIndex + number * w }

    function InodeAddress(i: int): int { inodeIndex + INODE_WORDS * i }

    function BlockAt(img: Image, number: int): (b: Block)
      ensures |b| == w
    {
      Words(img, Address(number), w)
    }
  }

  type Geo = g: Geometry | g.Valid() witness Geometry(1, 256, 256, 0)

  lemma BlocksApart(g: Geo, m: int, i: int, n: int, j: int)
    requires m != n && 0 <= i < g.w && 0 <= j < g.w
    ensures g.Address(m) + i != g.Address(n) + j
  {
    if m < n {
      MulMono(m + 1, n, g.w);
    } else {
      MulMono(n + 1, m, g.w);
    }
  }

  /** Everything below the data region agrees. */
  ghost predicate SameLow(g: Geo, a: Image, b: Image) {
    forall k :: k < g.dataIndex ==> Get(a, k) == Get(b, k)
  }

  /** The two images differ at most in data-region blocks [dlo, dhi) and [ilo, ihi). */
  ghost predicate Frame(g: Geo, a: Image, b: Image, dlo: int, dhi: int, ilo: int, ihi: int) {
    && SameLow(g, a, b)
    && forall n :: 0 <= n && !(dlo <= n < dhi) && !(ilo <= n < ihi) ==> g.BlockAt(a, n) == g.BlockAt(b, n)
  }

  function PutWord(g: Geo, img: Image, number: int, i: int, v: int): Image {
    Put(img, g.Address(number) + i, [v])
  }

  function PutBlock(g: Geo, img: Image, number: int, b: Block): Image {
    Put(img, g.Address(number), b)
  }

  lemma PutBlockEffect(g: Geo, img: Image, number: int, b: Block)
    requires 0 <= number && |b| == g.w
    ensures g.BlockAt(PutBlock(g, img, number, b), number) == b
    ensures Frame(g, img, PutBlock(g, img, number, b), number, number + 1, number, number)
  {
    var r := PutBlock(g, img, number, b);
    assert number * g.w >= 0;
    forall n | 0 <= n && n != number ensures g.BlockAt(img, n) == g.BlockAt(r, n) {
      forall j | 0 <= j < g.w ensures g.BlockAt(img, n)[j] == g.BlockAt(r, n)[j] {
        var a := g.Address(n) + j;
        if g.Address(number) <= a < g.Address(number) + g.w {
          BlocksApart(g, number, a - g.Address(number), n, j);
        }
      }
    }
  }

  lemma PutWordEffect(g: Geo, img: Image, number: int, i: int, v: int)
    requires 0 <= number && 0 <= i < g.w
    ensures g.BlockAt(PutWord(g, img, number, i, v), number) == g.BlockAt(img, number)[i := v]
    ensures Frame(g, img, PutWord(g, img, number, i, v), number, number + 1, number, number)
  {
    var r := PutWord(g, img, number, i, v);
    assert number * g.w >= 0;
    forall n | 0 <= n && n != number ensures g.BlockAt(img, n) == g.BlockAt(r, n) {
      forall j | 0 <= j < g.w ensures g.BlockAt(img, n)[j] == g.BlockAt(r, n)[j] {
        BlocksApart(g, number, i, n, j);
      }
    }
  }

  // ----- the reader: order and dfs

  /** Data blocks below one index block or data block. */
  function Capacity(g: Geo, level: nat): (c: nat)
    ensures c >= 1
  {
    if level == 0 then 1 else
      assert g.w * Capacity(g, level - 1) >= 1;
      g.w * Capacity(g, level - 1)
  }

  /** The data blocks `dfs(val, level + 1)` records while `count` blocks are still wanted. */
  function TreeData(g: Geo, img: Image, level: nat, val: int, count: nat): (r: seq<int>)
    requires count > 0
    ensures |r| <= count
    decreases level, g.w + 1
  {
    if level == 0 then [val] else KidsData(g, img, level, val, 0, count)
  }

  function KidsData(g: Geo, img: Image, level: nat, val: int, i: nat, count: nat): (r: seq<int>)
    requires level > 0 && i <= g.w
    ensures |r| <= count
    decreases level, g.w - i
  {
    if i == g.w || count == 0 then [] else
      var d := TreeData(g, img, level - 1, g.BlockAt(img, val)[i], count);
      d + KidsData(g, img, level, val, i + 1, count - |d|)
  }

  /** The index blocks the same walk records. */
  function TreeIndex(g: Geo, img: Image, level: nat, val: int, count: nat): seq<int>
    requires count > 0
    decreases level, g.w + 1
  {
    if level == 0 then [] else [val] + KidsIndex(g, img, level, val, 0, count)
  }

  function KidsIndex(g: Geo, img: Image, level: nat, val: int, i: nat, count: nat): seq<int>
    requires level > 0 && i <= g.w
    decreases level, g.w - i
  {
    if i == g.w || count == 0 then [] else
      var d := TreeData(g, img, level - 1, g.BlockAt(img, val)[i], count);
      TreeIndex(g, img, level - 1, g.BlockAt(img, val)[i], count)
      + KidsIndex(g, img, level, val, i + 1, count - |d|)
  }

  /** A root pointer of an inode with the number of index levels below it. */
  datatype Root = Root(level: nat, val: int)

  /** dblocks, iblocks, i2block and i3block, in the order the program visits them. */
  const LEVELS: seq<nat> := [0, 0, 0, 0, 0, 0, 0, 0, 0, 0, 1, 1, 1, 1, 2, 3]

  function RootsOf(ino: seq<int>): (r: seq<Root>)
    requires |ino| == INODE_WORDS
    ensures |r| == N_ROOTS && Levels(r) == LEVELS
  {
    seq(N_ROOTS, v requires 0 <= v < N_ROOTS => Root(LEVELS[v], ino[ROOTS + v]))
  }

  function Levels(roots: seq<Root>): (r: seq<nat>)
    ensures |r| == |roots|
  {
    seq(|roots|, v requires 0 <= v < |roots| => roots[v].level)
  }

  /** Data blocks reached from a list of root pointers, in order. */
  function ForestData(g: Geo, img: Image, roots: seq<Root>, count: nat): (r: seq<int>)
    ensures |r| <= count
  {
    if roots == [] || count == 0 then [] else
      var d := TreeData(g, img, roots[0].level, roots[0].val, count);
      d + ForestData(g, img, roots[1..], count - |d|)
  }

  function ForestIndex(g: Geo, img: Image, roots: seq<Root>, count: nat): seq<int>
  {
    if roots == [] || count == 0 then [] else
      var d := TreeData(g, img, roots[0].level, roots[0].val, count);
      TreeIndex(g, img, roots[0].level, roots[0].val, count) + ForestIndex(g, img, roots[1..], count - |d|)
  }

  /** What the listed blocks hold. */
  function Contents(g: Geo, img: Image, list: seq<int>): (r: seq<Block>)
    ensures |r| == |list|
    ensures forall i :: 0 <= i < |r| ==> |r[i]| == g.w
  {
    seq(|list|, i requires 0 <= i < |list| => g.BlockAt(img, list[i]))
  }

  lemma ContentsConcat(g: Geo, img: Image, a: seq<int>, b: seq<int>)
    ensures Contents(g, img, a + b) == Contents(g, img, a) + Contents(g, img, b)
  {}

  // ----- how many blocks the walk finds

  function ForestCapacity(g: Geo, levels: seq<nat>): nat
  {
    if levels == [] then 0 else Capacity(g, levels[0]) + ForestCapacity(g, levels[1..])
  }

  lemma {:induction false} TreeDataLength(g: Geo, img: Image, level: nat, val: int, count: nat)
    requires count > 0
    ensures |TreeData(g, img, level, val, count)| == Min(count, Capacity(g, level))
    decreases level, g.w + 1
  {
    if level > 0 {
      KidsDataLength(g, img, level, val, 0, count);
    }
  }

  lemma {:induction false} KidsDataLength(g: Geo, img: Image, level: nat, val: int, i: nat, count: nat)
    requires level > 0 && i <= g.w
    ensures |KidsData(g, img, level, val, i, count)| == Min(count, (g.w - i) * Capacity(g, level - 1))
    decreases level, g.w - i
  {
    var c := Capacity(g, level - 1);
    if i < g.w && count > 0 {
      TreeDataLength(g, img, level - 1, g.BlockAt(img, val)[i], count);
      var d := TreeData(g, img, level - 1, g.BlockAt(img, val)[i], count);
      KidsDataLength(g, img, level, val, i + 1, count - |d|);
      MulPeel(g.w - i, c);
      MulMono(0, g.w - (i + 1), c);
    } else {
      MulMono(0, g.w - i, c);
    }
  }

  lemma {:induction false} ForestDataLength(g: Geo, img: Image, roots: seq<Root>, count: nat)
    ensures |ForestData(g, img, roots, count)| == Min(count, ForestCapacity(g, Levels(roots)))
  {
    if roots != [] {
      assert Levels(roots)[1..] == Levels(roots[1..]);
      if count > 0 {
        TreeDataLength(g, img, roots[0].level, roots[0].val, count);
        var d := TreeData(g, img, roots[0].level, roots[0].val, count);
        ForestDataLength(g, img, roots[1..], count - |d|);
      }
    }
  }

  // ----- resolving one logical block by its number

  /** The data block reached from an index block by dividing the logical number down the levels. */
  function Resolve(g: Geo, img: Image, level: nat, val: int, j: nat): int
    requires j < Capacity(g, level)
  {
    if level == 0 then val else
      var c := Capacity(g, level - 1);
      QuotientBelow(j, c, g.w);
      Resolve(g, img, level - 1, g.BlockAt(img, val)[j / c], j % c)
  }

  /** Logical block j of the file with these root pointers. */
  function ResolveForest(g: Geo, img: Image, roots: seq<Root>, j: nat): int
    requires j < ForestCapacity(g, Levels(roots))
  {
    var c := Capacity(g, roots[0].level);
    assert Levels(roots)[1..] == Levels(roots[1..]);
    if j < c then Resolve(g, img, roots[0].level, roots[0].val, j)
    else ResolveForest(g, img, roots[1..], j - c)
  }

  lemma {:induction false} TreeDataResolves(g: Geo, img: Image, level: nat, val: int, count: nat, j: nat)
    requires count > 0 && j < Min(count, Capacity(g, level))
    ensures |TreeData(g, img, level, val, count)| == Min(count, Capacity(g, level))
    ensures TreeData(g, img, level, val, count)[j] == Resolve(g, img, level, val, j)
    decreases level, g.w + 1
  {
    TreeDataLength(g, img, level, val, count);
    if level > 0 {
      KidsDataResolves(g, img, level, val, 0, count, j);
    }
  }

  lemma {:induction false} KidsDataResolves(g: Geo, img: Image, level: nat, val: int, i: nat, count: nat, j: nat)
    requires level > 0 && i <= g.w && j < Min(count, (g.w - i) * Capacity(g, level - 1))
    ensures |KidsData(g, img, level, val, i, count)| > j
    ensures var c := Capacity(g, level - 1);
            && 0 <= i + j / c < g.w && 0 <= j % c < c
            && KidsData(g, img, level, val, i, count)[j]
               == Resolve(g, img, level - 1, g.BlockAt(img, val)[i + j / c], j % c)
    decreases level, g.w - i
  {
    var c := Capacity(g, level - 1);
    KidsDataLength(g, img, level, val, i, count);
    QuotientBelow(j, c, g.w - i);
    var kid := g.BlockAt(img, val)[i];
    TreeDataLength(g, img, level - 1, kid, count);
    var d := TreeData(g, img, level - 1, kid, count);
    if j < c {
      QuotientUnique(j, c, 0, j);
      TreeDataResolves(g, img, level - 1, kid, count, j);
    } else {
      QuotientStep(j, c);
      MulPeel(g.w - i, c);
      KidsDataResolves(g, img, level, val, i + 1, count - |d|, j - c);
    }
  }

  /** The walk lists exactly what resolving each logical block number gives, through every level. */
  lemma {:induction false} ForestDataResolves(g: Geo, img: Image, roots: seq<Root>, count: nat, j: nat)
    requires j < Min(count, ForestCapacity(g, Levels(roots)))
    ensures |ForestData(g, img, roots, count)| > j
    ensures ForestData(g, img, roots, count)[j] == ResolveForest(g, img, roots, j)
  {
    var root := roots[0];
    assert Levels(roots)[1..] == Levels(roots[1..]);
    ForestDataLength(g, img, roots, count);
    TreeDataLength(g, img, root.level, root.val, count);
    var d := TreeData(g, img, root.level, root.val, count);
    if j < Capacity(g, root.level) {
      TreeDataResolves(g, img, root.level, root.val, count, j);
    } else {
      ForestDataResolves(g, img, roots[1..], count - |d|, j - |d|);
    }
  }

  // ----- the walk depends only on the index blocks it visits

  ghost predicate AgreeOn(g: Geo, a: Image, b: Image, blocks: seq<int>) {
    forall n :: n in blocks ==> g.BlockAt(a, n) == g.BlockAt(b, n)
  }

  lemma {:induction false} TreeFrame(g: Geo, a: Image, b: Image, level: nat, val: int, count: nat)
    requires count > 0 && AgreeOn(g, a, b, TreeIndex(g, a, level, val, count))
    ensures TreeData(g, a, level, val, count) == TreeData(g, b, level, val, count)
    ensures TreeIndex(g, a, level, val, count) == TreeIndex(g, b, level, val, count)
    decreases level, g.w + 1
  {
    if level > 0 {
      assert val in TreeIndex(g, a, level, val, count);
      KidsFrame(g, a, b, level, val, 0, count);
    }
  }

  lemma {:induction false} KidsFrame(g: Geo, a: Image, b: Image, level: nat, val: int, i: nat, count: nat)
    requires level > 0 && i <= g.w
    requires forall k :: i <= k < g.w ==> g.BlockAt(a, val)[k] == g.BlockAt(b, val)[k]
    requires AgreeOn(g, a, b, KidsIndex(g, a, level, val, i, count))
    ensures KidsData(g, a, level, val, i, count) == KidsData(g, b, level, val, i, count)
    ensures KidsIndex(g, a, level, val, i, count) == KidsIndex(g, b, level, val, i, count)
    decreases level, g.w - i
  {
    hide TreeData, TreeIndex;
    if i < g.w && count > 0 {
      var kid := g.BlockAt(a, val)[i];
      var d := TreeData(g, a, level - 1, kid, count);
      assert KidsIndex(g, a, level, val, i, count)
          == TreeIndex(g, a, level - 1, kid, count) + KidsIndex(g, a, level, val, i + 1, count - |d|);
      TreeFrame(g, a, b, level - 1, kid, count);
      KidsFrame(g, a, b, level, val, i + 1, count - |d|);
    }
  }

  lemma {:induction false} ForestFrame(g: Geo, a: Image, b: Image, roots: seq<Root>, count: nat)
    requires AgreeOn(g, a, b, ForestIndex(g, a, roots, count))
    ensures ForestData(g, a, roots, count) == ForestData(g, b, roots, count)
    ensures ForestIndex(g, a, roots, count) == ForestIndex(g, b, roots, count)
  {
    if roots != [] && count > 0 {
      var d := TreeData(g, a, roots[0].level, roots[0].val, count);
      assert ForestIndex(g, a, roots, count)
          == TreeIndex(g, a, roots[0].level, roots[0].val, count) + ForestIndex(g, a, roots[1..], count - |d|);
      TreeFrame(g, a, b, roots[0].level, roots[0].val, count);
      ForestFrame(g, a, b, roots[1..], count - |d|);
    }
  }
}
