/** The user-level allocator: a circular free list kept in address order.

    Addresses count header-sized units.  `base` is the list's permanent empty
    block and lies below all memory obtained from sbrk. */
module UMalloc {
  import opened Basics
  import opened FreeList

  const NULL := 0
  const MINCORE := 4096

  /** Link and size words by address, the scan start and the end of the arena.
      The rest is ghostly: the list in address order, the addresses of the live
      blocks, the length of every block free or live, and for every unit
      obtained from sbrk the block it lies in. */
  datatype Heap = Heap(base: int, ptr: map<int, int>, size: map<int, int>, freep: int, brk: int,
                       nodes: seq<int>, live: set<int>, blocks: map<int, int>, head: map<int, int>)

  ghost predicate ListOk(h: Heap) {
    && |h.nodes| > 0 && h.nodes[0] == h.base > NULL && h.freep in h.nodes
    && Sorted(h.nodes) && Circular(h.nodes, h.ptr)
  }

  ghost predicate SizesOk(h: Heap) {
    && h.base in h.size && h.size[h.base] == 0 && h.base < h.brk
    && (forall b :: b in h.blocks ==> b in h.size && h.size[b] == h.blocks[b] && h.base < b && b + h.blocks[b] <= h.brk)
  }

  ghost predicate OwnersOk(h: Heap) {
    && (forall b :: b in h.blocks <==> b in h.live || (b in h.nodes && b != h.base))
    && (forall b :: b in h.live ==> b !in h.nodes)
  }

  ghost predicate Gap(h: Heap, i: int)
    requires 0 <= i < |h.nodes| - 1
  {
    h.nodes[i] in h.size && h.nodes[i] + h.size[h.nodes[i]] < h.nodes[i + 1]
  }

  ghost predicate Sound(h: Heap) {
    ListOk(h) && SizesOk(h) && OwnersOk(h) && Tiles(h.blocks, h.head)
  }

  /** The list is circular and sorted, blocks tile the sbrk'd units, and no two free blocks touch. */
  ghost predicate Valid(h: Heap) {
    Sound(h) && forall i :: 0 <= i < |h.nodes| - 1 ==> Gap(h, i)
  }

  /** Valid, except that free block i may touch its successor for i == lo or i == hi. */
  ghost predicate ValidBut(h: Heap, lo: int, hi: int) {
    Sound(h) && forall i :: 0 <= i < |h.nodes| - 1 && i != lo && i != hi ==> Gap(h, i)
  }

  /** Blocks live in both states have the same length in both. */
  ghost predicate LiveSame(h: Heap, r: Heap) {
    forall b :: b in h.live && b in r.live && b in h.blocks && b in r.blocks ==> r.blocks[b] == h.blocks[b]
  }

  /** Live blocks never overlap each other or a free block. */
  lemma LiveApart(h: Heap, a: int, b: int)
    requires Valid(h) && a in h.live && (b in h.live || (b in h.nodes && b != h.base)) && a != b
    ensures a in h.blocks && b in h.blocks && (a + h.blocks[a] <= b || b + h.blocks[b] <= a)
  {
    if a < b {
      TilesApart(h.blocks, h.head, a, b);
    } else {
      TilesApart(h.blocks, h.head, b, a);
    }
  }

  /** Two free blocks never even touch: each run of free units is one block. */
  lemma FreeApart(h: Heap, i: int, j: int)
    requires Valid(h) && 0 <= i < j < |h.nodes|
    ensures h.nodes[i] in h.size && h.nodes[j] in h.size
    ensures h.nodes[i] + h.size[h.nodes[i]] < h.nodes[j] && h.size[h.nodes[i]] >= 0
  {
    hide Tiles;
    assert Gap(h, i) && h.nodes[i + 1] <= h.nodes[j];
    assert h.nodes[i] in h.nodes && h.nodes[j] in h.nodes;
    TilesPositive(h.blocks, h.head);
  }

  // ----- giving a block back

  /** The block at bp put on the list after nodes[t], without merging. */
  ghost function Linked(h: Heap, bp: int, t: int): Heap
    requires ListOk(h) && 0 <= t < |h.nodes|
  {
    var p := h.nodes[t];
    assert Link(h.nodes, h.ptr, t);
    h.(ptr := h.ptr[bp := h.ptr[p]][p := bp], nodes := InsertAfter(h.nodes, t, bp), live := h.live - {bp}, freep := p)
  }

  lemma LinkedSound(h: Heap, bp: int, t: int)
    requires Valid(h) && bp in h.live && IsPlace(h.nodes, bp, t)
    ensures Sound(Linked(h, bp, t))
  {
    hide InsertAfter, Tiles;
    InsertSorted(h.nodes, t, bp);
    InsertCircular(h.nodes, h.ptr, t, bp);
    InsertAt(h.nodes, t, bp, 0);
    var r := Linked(h, bp, t);
    assert r.freep in h.nodes;
  }

  lemma LinkedKeeps(h: Heap, bp: int, t: int)
    requires Valid(h) && bp in h.live && IsPlace(h.nodes, bp, t)
    ensures ValidBut(Linked(h, bp, t), t, t + 1)
  {
    hide InsertAfter, Tiles, Linked, SizesOk, OwnersOk;
    LinkedSound(h, bp, t);
    var r := Linked(h, bp, t);
    forall i | 0 <= i < |r.nodes| - 1 && i != t && i != t + 1 ensures Gap(r, i) {
      LinkedGap(h, bp, t, i);
    }
  }

  /** The gaps away from the new node are those there were. */
  lemma LinkedGap(h: Heap, bp: int, t: int, i: int)
    requires Valid(h) && 0 <= t < |h.nodes| && 0 <= i < |Linked(h, bp, t).nodes| - 1 && i != t && i != t + 1
    ensures Gap(Linked(h, bp, t), i)
  {
    hide InsertAfter, Tiles;
    InsertAt(h.nodes, t, bp, i);
    InsertAt(h.nodes, t, bp, i + 1);
    assert Gap(h, if i < t then i else i - 1);
  }

  /** Free blocks t and t + 1 joined into one. */
  ghost function Joined(h: Heap, t: int): Heap
    requires Sound(h) && 0 < t < |h.nodes| - 1
  {
    var (p, q) := (h.nodes[t], h.nodes[t + 1]);
    assert Link(h.nodes, h.ptr, t + 1) && p in h.nodes && q in h.nodes && h.nodes[0] < p;
    h.(ptr := h.ptr[p := h.ptr[q]], size := h.size[p := h.size[p] + h.size[q]], nodes := RemoveAt(h.nodes, t + 1),
       blocks := (h.blocks - {q})[p := h.blocks[p] + h.blocks[q]], head := Rehead(h.head, q, q + h.blocks[q], p))
  }

  ghost predicate Touching(h: Heap, t: int) {
    && Sound(h) && 0 < t < |h.nodes| - 1 && h.freep != h.nodes[t + 1]
    && h.nodes[t] in h.size && h.nodes[t] + h.size[h.nodes[t]] == h.nodes[t + 1]
  }

  lemma JoinedSound(h: Heap, t: int)
    requires Touching(h, t)
    ensures Sound(Joined(h, t))
  {
    hide RemoveAt, Tiles, Rehead;
    var r, p, q := Joined(h, t), h.nodes[t], h.nodes[t + 1];
    assert p in h.nodes && q in h.nodes && h.nodes[0] < p < q;
    RemoveSorted(h.nodes, t + 1);
    RemoveCircular(h.nodes, h.ptr, t + 1);
    RemovedAt(h.nodes, t + 1, 0);
    TilesJoin(h.blocks, h.head, p, q);
    TilesPositive(h.blocks, h.head);
  }

  lemma TilesPositive(blocks: map<int, int>, head: map<int, int>)
    requires Tiles(blocks, head)
    ensures forall b :: b in blocks ==> blocks[b] > 0
  {}

  lemma JoinedGapAt(h: Heap, t: int, lo: int, i: int)
    requires Touching(h, t) && ValidBut(h, lo, t) && lo <= t
    requires 0 <= i < |Joined(h, t).nodes| - 1 && i != if lo < t then lo else -1
    ensures Gap(Joined(h, t), i)
  {
    hide RemoveAt, Tiles, Circular, OwnersOk, Rehead;
    var r := Joined(h, t);
    RemovedAt(h.nodes, t + 1, i);
    RemovedAt(h.nodes, t + 1, i + 1);
    assert i != t ==> h.nodes[t] != r.nodes[i];
    assert Gap(h, if i < t then i else i + 1);
  }

  lemma JoinedGaps(h: Heap, t: int, lo: int)
    requires Touching(h, t) && ValidBut(h, lo, t) && lo <= t
    ensures var left := if lo < t then lo else -1; ValidBut(Joined(h, t), left, left)
  {
    JoinedSound(h, t);
    hide RemoveAt, Tiles, Circular, OwnersOk, Gap, Rehead, Link;
    var r, left := Joined(h, t), if lo < t then lo else -1;
    forall i | 0 <= i < |r.nodes| - 1 && i != left ensures Gap(r, i) {
      JoinedGapAt(h, t, lo, i);
    }
  }

  /** Two free neighbours that do not touch leave a gap. */
  lemma GapAt(h: Heap, lo: int, t: int)
    requires ValidBut(h, lo, t) && 0 <= t < |h.nodes|
    requires t + 1 < |h.nodes| ==> h.nodes[t] in h.size && h.nodes[t] + h.size[h.nodes[t]] != h.nodes[t + 1]
    ensures ValidBut(h, lo, lo)
  {
    if t + 1 < |h.nodes| {
      hide Tiles, Circular;
      var p, q := h.nodes[t], h.nodes[t + 1];
      assert p in h.nodes && q in h.nodes && p < q;
      if t > 0 {
        assert h.nodes[0] < p;
        TilesApart(h.blocks, h.head, p, q);
      }
      assert Gap(h, t);
    }
  }

  /** The list after bp is linked and, if they touch, joined with the block behind it. */
  ghost function Middle(h: Heap, bp: int, t: int): Heap
    requires Valid(h) && bp in h.live && IsPlace(h.nodes, bp, t)
  {
    LinkedSound(h, bp, t);
    var r := Linked(h, bp, t);
    if t + 2 < |r.nodes| && bp + r.size[bp] == r.nodes[t + 2] then Joined(r, t + 1) else r
  }

  lemma MiddleKeeps(h: Heap, bp: int, t: int)
    requires Valid(h) && bp in h.live && IsPlace(h.nodes, bp, t)
    ensures var s := Middle(h, bp, t);
            && ValidBut(s, t, t) && t + 1 < |s.nodes| && s.nodes[t] == h.nodes[t] == s.freep && s.nodes[t + 1] == bp
            && h.nodes[t] in s.size && (h.nodes[t] + s.size[h.nodes[t]] == bp ==> t > 0)
            && s.head.Keys == h.head.Keys && s.live == h.live - {bp} && s.brk == h.brk && s.base == h.base
            && LiveSame(h, s)
  {
    LinkedFacts(h, bp, t);
    hide Valid, ValidBut, Sound, Linked, Joined, IsPlace, LiveSame;
    var r := Linked(h, bp, t);
    if t + 2 < |r.nodes| && bp + r.size[bp] == r.nodes[t + 2] {
      RightFacts(r, t);
      LiveSameTwice(h, r, Joined(r, t + 1));
    } else {
      GapAt(r, t, t + 1);
    }
  }

  lemma LinkedFacts(h: Heap, bp: int, t: int)
    requires Valid(h) && bp in h.live && IsPlace(h.nodes, bp, t)
    ensures var r := Linked(h, bp, t);
            && ValidBut(r, t, t + 1) && Sound(r) && Sound(h) && 0 <= t < |r.nodes| - 1
            && r.nodes[t] == h.nodes[t] == r.freep && r.nodes[t + 1] == bp && bp in r.size && h.nodes[t] in r.size
            && (h.nodes[t] + r.size[h.nodes[t]] == bp ==> t > 0)
            && r.head == h.head && r.live == h.live - {bp} && r.brk == h.brk && r.base == h.base && LiveSame(h, r)
  {
    LinkedKeeps(h, bp, t);
    hide InsertAfter, Tiles, Circular, Gap;
    InsertAt(h.nodes, t, bp, t);
    InsertAt(h.nodes, t, bp, t + 1);
    assert h.nodes[t] in h.nodes && bp in h.blocks;
  }

  lemma RightFacts(r: Heap, t: int)
    requires ValidBut(r, t, t + 1) && Sound(r) && 0 <= t < |r.nodes| - 2 && r.freep == r.nodes[t]
    requires r.nodes[t + 1] in r.size && r.nodes[t + 1] + r.size[r.nodes[t + 1]] == r.nodes[t + 2] && r.nodes[t] in r.size
    ensures var s := Joined(r, t + 1);
            && ValidBut(s, t, t) && Sound(s) && t + 1 < |s.nodes| && s.nodes[t] == r.nodes[t] == s.freep && s.nodes[t + 1] == r.nodes[t + 1]
            && s.nodes[t] in s.size && s.size[s.nodes[t]] == r.size[r.nodes[t]]
            && s.head.Keys == r.head.Keys && s.live == r.live && s.brk == r.brk && s.base == r.base && LiveSame(r, s)
  {
    assert r.nodes[t] < r.nodes[t + 1] < r.nodes[t + 2];
    JoinedGaps(r, t + 1, t);
    hide RemoveAt, Tiles, Circular, Gap;
    RemovedAt(r.nodes, t + 2, t);
    RemovedAt(r.nodes, t + 2, t + 1);
    assert r.nodes[t + 1] in r.nodes && r.nodes[t + 2] in r.nodes;
  }

  /** The list after freeing bp: linked in place, joined with the next block if
      they touch, then with the previous one if they touch. */
  ghost function Released(h: Heap, bp: int, t: int): Heap
    requires Valid(h) && bp in h.live && IsPlace(h.nodes, bp, t)
  {
    MiddleKeeps(h, bp, t);
    LeftMerged(Middle(h, bp, t), t)
  }

  ghost function LeftMerged(s: Heap, t: int): Heap
    requires ValidBut(s, t, t) && 0 <= t < |s.nodes| - 1 && s.nodes[t] in s.size
    requires s.nodes[t] + s.size[s.nodes[t]] == s.nodes[t + 1] ==> t > 0
  {
    if s.nodes[t] + s.size[s.nodes[t]] == s.nodes[t + 1] then Joined(s, t) else s
  }

  lemma LeftMergedValid(s: Heap, t: int)
    requires ValidBut(s, t, t) && 0 <= t < |s.nodes| - 1 && s.freep == s.nodes[t] && s.nodes[t] in s.size
    requires s.nodes[t] + s.size[s.nodes[t]] == s.nodes[t + 1] ==> t > 0
    ensures var r := LeftMerged(s, t);
            && Valid(r) && r.head.Keys == s.head.Keys && r.live == s.live && r.brk == s.brk && r.base == s.base
            && LiveSame(s, r)
            && r.freep == s.freep && t < |r.nodes| && r.nodes[t] == r.freep
  {
    hide RemoveAt, Tiles, Circular, Gap;
    assert s.nodes[t] < s.nodes[t + 1];
    if s.nodes[t] + s.size[s.nodes[t]] == s.nodes[t + 1] {
      RemovedAt(s.nodes, t + 1, t);
      JoinedGaps(s, t, t);
    } else {
      GapAt(s, -1, t);
    }
  }

  lemma LiveSameTwice(h: Heap, s: Heap, r: Heap)
    requires Sound(h) && Sound(s) && Sound(r) && LiveSame(h, s) && LiveSame(s, r) && h.live * r.live <= s.live
    ensures LiveSame(h, r)
  {
    hide Tiles, Circular;
  }

  lemma LiveSameChain(h: Heap, s: Heap, r: Heap)
    requires Valid(h) && Valid(s) && Valid(r) && LiveSame(h, s) && LiveSame(s, r) && h.live * r.live <= s.live
    ensures LiveSame(h, r)
  {
    LiveSameTwice(h, s, r);
  }

  /** Freeing keeps the list circular, sorted and fully coalesced, and gives back exactly the block's units. */
  lemma ReleasedValid(h: Heap, bp: int, t: int)
    requires Valid(h) && bp in h.live && IsPlace(h.nodes, bp, t)
    ensures var r := Released(h, bp, t);
            && Valid(r) && r.head.Keys == h.head.Keys && r.live == h.live - {bp} && r.brk == h.brk && r.base == h.base
            && LiveSame(h, r)
            && t < |r.nodes| && r.nodes[t] == h.nodes[t] == r.freep
  {
    hide Sound, Middle, LeftMerged, LiveSame;
    MiddleKeeps(h, bp, t);
    LeftMergedValid(Middle(h, bp, t), t);
    LiveSameTwice(h, Middle(h, bp, t), Released(h, bp, t));
  }

  // ----- taking units

  /** Free block i, of exactly n units, unlinked and handed out. */
  ghost function Unlinked(h: Heap, i: int): Heap
    requires ListOk(h) && 0 < i < |h.nodes|
  {
    assert Link(h.nodes, h.ptr, i);
    h.(ptr := h.ptr[h.nodes[i - 1] := h.ptr[h.nodes[i]]], nodes := RemoveAt(h.nodes, i),
       live := h.live + {h.nodes[i]}, freep := h.nodes[i - 1])
  }

  lemma UnlinkedValid(h: Heap, i: int)
    requires Valid(h) && 0 < i < |h.nodes|
    ensures Valid(Unlinked(h, i))
  {
    hide RemoveAt, Tiles;
    var r := Unlinked(h, i);
    RemoveSorted(h.nodes, i);
    RemoveCircular(h.nodes, h.ptr, i);
    RemovedAt(h.nodes, i, 0);
    RemovedAt(h.nodes, i, i - 1);
    assert h.nodes[0] < h.nodes[i] && h.nodes[i - 1] in h.nodes;
    forall j | 0 <= j < |r.nodes| - 1 ensures Gap(r, j) {
      RemovedAt(h.nodes, i, j);
      RemovedAt(h.nodes, i, j + 1);
      if j == i - 1 {
        assert Gap(h, i - 1) && Gap(h, i);
        assert h.nodes[i] in h.blocks;
        TilesPositive(h.blocks, h.head);
      } else {
        assert Gap(h, if j < i then j else j + 1);
      }
    }
  }

  /** The top n units of free block i cut off and handed out. */
  ghost function Carved(h: Heap, i: int, n: int, prev: int): Heap
    requires Sound(h) && 0 < i < |h.nodes|
  {
    var p := h.nodes[i];
    assert p in h.nodes && h.nodes[0] < p;
    var q := p + h.size[p] - n;
    h.(size := h.size[p := h.size[p] - n][q := n], live := h.live + {q}, freep := prev,
       blocks := h.blocks[p := h.size[p] - n][q := n], head := Rehead(h.head, q, p + h.size[p], q))
  }

  lemma CarvedValid(h: Heap, i: int, n: int, prev: int)
    requires Valid(h) && 0 < i < |h.nodes| && prev in h.nodes
    requires h.nodes[i] in h.size && 0 < n < h.size[h.nodes[i]]
    ensures Valid(Carved(h, i, n, prev))
    ensures h.nodes[i] + h.size[h.nodes[i]] - n !in h.blocks
  {
    hide Tiles, Circular, Rehead;
    var r, p := Carved(h, i, n, prev), h.nodes[i];
    var q := p + h.size[p] - n;
    assert p in h.nodes && h.nodes[0] < p && p in h.blocks;
    TilesCut(h.blocks, h.head, p, q);
    assert q !in h.nodes;
    forall j | 0 <= j < |r.nodes| - 1 ensures Gap(r, j) {
      assert Gap(h, j);
      assert h.nodes[j] in h.nodes;
    }
  }

  /** n fresh units at the end of the arena, as a live block. */
  ghost function Extended(h: Heap, n: int): Heap {
    h.(size := h.size[h.brk := n], live := h.live + {h.brk}, blocks := h.blocks[h.brk := n],
       head := AddHead(h.head, h.brk, n), brk := h.brk + n)
  }

  lemma ExtendedValid(h: Heap, n: int)
    requires Valid(h) && n > 0
    ensures Valid(Extended(h, n)) && h.brk !in h.blocks && h.brk !in h.nodes
    ensures forall b :: b in h.nodes ==> b < h.brk
  {
    hide Circular, AddHead;
    TilesPositive(h.blocks, h.head);
    var r := Extended(h, n);
    forall b | b in h.nodes ensures b < h.brk {
      assert b == h.base || b in h.blocks;
    }
    forall x | x in h.head ensures x < h.brk {
      assert In(h.blocks, h.head[x], x);
    }
    hide Tiles;
    TilesAdd(h.blocks, h.head, h.brk, n);
    forall j | 0 <= j < |r.nodes| - 1 ensures Gap(r, j) {
      assert Gap(h, j) && h.nodes[j] in h.nodes;
    }
  }

  // ----- the allocator

  /** Header-sized units a request needs, its own header included. */
  function Units(nbytes: nat): (n: nat)
    ensures n >= 1 && 8 * (n - 1) >= nbytes && (nbytes > 0 ==> 8 * (n - 2) < nbytes)
  {
    (nbytes + 8 - 1) / 8 + 1
  }

  function Around(i: int, k: int): int { if i >= k then i - k else i }

  /** The next search begins with what is left of the block that b was cut from, or with the
      next free block behind b: freep is the free block before that. */
  ghost predicate StartsAt(h: Heap, b: int) {
    exists i :: 0 <= i < |h.nodes| && StartsBehind(h, i, b)
  }

  ghost predicate StartsBehind(h: Heap, i: int, b: int)
    requires 0 <= i < |h.nodes|
  {
    && h.nodes[i] == h.freep < b
    && (i + 1 < |h.nodes| && h.nodes[i + 1] < b ==> h.nodes[i + 1] in h.size && h.nodes[i + 1] + h.size[h.nodes[i + 1]] == b)
  }

  lemma UnlinkedStart(h: Heap, i: int)
    requires Valid(h) && 0 < i < |h.nodes|
    ensures StartsAt(Unlinked(h, i), h.nodes[i])
  {
    hide RemoveAt, Tiles, Circular;
    RemovedAt(h.nodes, i, i - 1);
    if i + 1 < |h.nodes| { RemovedAt(h.nodes, i, i); }
    assert StartsBehind(Unlinked(h, i), i - 1, h.nodes[i]);
  }

  lemma CarvedStart(h: Heap, i: int, n: int)
    requires Valid(h) && 0 < i < |h.nodes| && h.nodes[i] in h.size && 0 < n < h.size[h.nodes[i]]
    ensures StartsAt(Carved(h, i, n, h.nodes[i - 1]), h.nodes[i] + h.size[h.nodes[i]] - n)
  {
    hide Tiles, Circular, Rehead;
    assert StartsBehind(Carved(h, i, n, h.nodes[i - 1]), i - 1, h.nodes[i] + h.size[h.nodes[i]] - n);
  }

  lemma PlaceBetween(s: seq<int>, x: int, t: int)
    requires Sorted(s) && IsPlace(s, x, t)
    ensures s[t] in s && s[t] < x && forall n :: n in s ==> n <= s[t] || n > x
  {
    forall n | n in s ensures n <= s[t] || n > x {
      var i :| 0 <= i < |s| && s[i] == n;
      assert i <= t || t + 1 == i || s[t + 1] < s[i];
    }
  }

  lemma PlaceExists(s: seq<int>, x: int) returns (t: int)
    requires Sorted(s) && |s| > 0 && s[0] < x && x !in s
    ensures IsPlace(s, x, t)
  {
    t := 0;
    while t + 1 < |s| && s[t + 1] < x
      invariant 0 <= t < |s| && s[t] < x
    {
      t := t + 1;
    }
  }

  class Allocator {
    const base: int
    var ptr: map<int, int>
    var size: map<int, int>
    var freep: int
    var brk: int
    ghost var nodes: seq<int>
    ghost var live: set<int>
    ghost var blocks: map<int, int>
    ghost var head: map<int, int>

    ghost function State(): Heap
      reads this
    {
      Heap(base, ptr, size, freep, brk, nodes, live, blocks, head)
    }

    /** Before the first malloc the list does not exist yet. */
    ghost predicate Unused()
      reads this
    {
      freep == NULL && NULL < base < brk && nodes == [] && live == {} && blocks == map[] && head == map[]
    }

    constructor (base: int, brk: int)
      requires NULL < base < brk
      ensures Unused()
    {
      this.base, this.brk, freep := base, brk, NULL;
      ptr, size := map[], map[];
      nodes, live, blocks, head := [], {}, map[], map[];
    }

    /** `bp` is the header of a live block. */
    method Free(bp: int)
      requires Valid(State()) && bp in live
      modifies this
      ensures Valid(State()) && live == old(live) - {bp} && LiveSame(old(State()), State())
      ensures head.Keys == old(head).Keys && brk == old(brk)
      ensures exists t :: IsPlace(old(nodes), bp, t) && State() == Released(old(State()), bp, t)
      ensures freep in old(nodes) && freep < bp && forall n :: n in old(nodes) ==> n <= freep || n > bp
    {
      hide Tiles, Released, InsertAfter, RemoveAt;
      ghost var h := State();
      assert bp in blocks;
      ghost var t := PlaceExists(nodes, bp);
      ghost var j :| 0 <= j < |nodes| && nodes[j] == freep;
      var p := freep;
      assert Link(nodes, ptr, j);
      while !(bp > p && bp < ptr[p])
        invariant 0 <= j < |nodes| && p == nodes[j] && State() == h && Link(nodes, ptr, j)
        decreases if j <= t then t - j else t - j + |nodes|
      {
        if p >= ptr[p] && (bp > p || bp < ptr[p]) {
          assert nodes[0] <= p;
          break;
        }
        p := ptr[p];
        j := Succ(j, |nodes|);
        assert Link(nodes, ptr, j);
      }
      assert IsPlace(nodes, bp, j);
      ReleasedValid(h, bp, j);
      PlaceBetween(h.nodes, bp, j);
      Splice(bp, p, j);
      LinkedNext(h, bp, j);
    }

    /** The pointer surgery at the end of free. */
    method Splice(bp: int, p: int, ghost t: int)
      requires Valid(State()) && bp in live && IsPlace(nodes, bp, t) && p == nodes[t]
      modifies this
      ensures State() == Released(old(State()), bp, t)
    {
      hide Valid, Released;
      ghost var h := State();
      LinkedNext(h, bp, t);
      SpliceStates(h, bp, t);
      if bp + size[bp] == ptr[p] {
        size := size[bp := size[bp] + size[ptr[p]]];
        ptr := ptr[bp := ptr[ptr[p]]];
      } else {
        ptr := ptr[bp := ptr[p]];
      }
      if p + size[p] == bp {
        size := size[p := size[p] + size[bp]];
        ptr := ptr[p := ptr[bp]];
      } else {
        ptr := ptr[p := bp];
      }
      freep := p;
      ghost var e := Released(h, bp, t);
      nodes, live, blocks, head := e.nodes, e.live, e.blocks, e.head;
    }

    /** Asks for at least MINCORE units and frees them onto the list; the block
        they end up in is the scan start or the one behind it. */
    method Morecore(nu: int, available: bool) returns (p: int, ghost g: int)
      requires Valid(State()) && nu > 0
      modifies this
      ensures Valid(State()) && live == old(live) && LiveSame(old(State()), State())
      ensures !available ==> p == NULL && State() == old(State())
      ensures available ==> p == freep > NULL && head.Keys == old(head).Keys + Chunk(old(brk), Max(nu, MINCORE))
      ensures available ==> 0 <= g < |nodes| && nodes[g] in size && size[nodes[g]] >= nu
                            && (nodes[g] == freep || (g > 0 && nodes[g - 1] == freep))
    {
      hide Sound, Gap, LiveSame, Extended, Released, Chunk;
      if !available {
        LiveSameSelf(State());
        return NULL, 0;
      }
      var n := Max(nu, MINCORE);
      ghost var h := State();
      p := Extend(n);
      ghost var e := State();
      ghost var t := |e.nodes| - 1;
      g := ReleasedLast(e, p);
      Free(p);
      LiveSameTwice(h, e, State());
      p := freep;
      FreepPositive(State());
    }

    /** sbrk of n units, made one live block above everything. */
    method Extend(n: int) returns (p: int)
      requires Valid(State()) && n > 0
      modifies this
      ensures State() == Extended(old(State()), n) && Valid(State()) && p == old(brk)
      ensures p !in old(live) && live == old(live) + {p} && p in size && size[p] == n
      ensures IsPlace(nodes, p, |nodes| - 1) && forall u :: IsPlace(nodes, p, u) ==> u == |nodes| - 1
      ensures head.Keys == old(head).Keys + Chunk(old(brk), n) && LiveSame(old(State()), State())
    {
      hide Tiles, Circular, Gap, Link;
      ghost var h := State();
      ExtendedValid(h, n);
      LiveOwned(h, h.brk);
      LastPlace(h.nodes, h.brk);
      HeadKeys(h, n);
      ExtendedLive(h, n);
      p := brk;
      size := size[p := n];
      live, blocks, head, brk := live + {p}, blocks[p := n], AddHead(head, p, n), brk + n;
    }

    /** Hands out nunits of free block i, whole or cut from its top. */
    method Take(prevp: int, block: int, nunits: int, ghost i: int) returns (r: int)
      requires Valid(State()) && 0 < i < |nodes| && prevp == nodes[i - 1] && block == nodes[i]
      requires block in size && 0 < nunits <= size[block]
      modifies this
      ensures Valid(State()) && LiveSame(old(State()), State()) && head.Keys == old(head).Keys
      ensures r - 1 !in old(live) && live == old(live) + {r - 1} && r - 1 in blocks && blocks[r - 1] == nunits && r > 1
      ensures r - 1 == block + old(size)[block] - nunits
      ensures freep == prevp && StartsAt(State(), r - 1)
    {
      hide Tiles, Circular, Gap, Carved, Unlinked, StartsAt;
      ghost var h := State();
      var p := block;
      NodeFacts(h, i);
      PositiveBlock(h, p);
      if size[p] == nunits {
        UnlinkedValid(h, i);
        UnlinkedWords(h, i);
        UnlinkedStart(h, i);
        ptr := ptr[prevp := ptr[p]];
        ghost var e := Unlinked(h, i);
        nodes, live := e.nodes, e.live;
      } else {
        assert prevp in nodes;
        CarvedValid(h, i, nunits, prevp);
        CarvedWords(h, i, nunits, prevp);
        CarvedStart(h, i, nunits);
        size := size[p := size[p] - nunits];
        p := p + size[p];
        size := size[p := nunits];
        ghost var e := Carved(h, i, nunits, prevp);
        live, blocks, head := e.live, e.blocks, e.head;
      }
      freep := prevp;
      return p + 1;
    }

    /** The first call sets up the list with the empty block alone. */
    method Start()
      requires Unused()
      modifies `ptr, `size, `freep, `nodes
      ensures Valid(State()) && nodes == [base] && freep == base
    {
      freep := base;
      ptr := ptr[base := base];
      size := size[base := 0];
      nodes := [base];
      FirstList(State());
    }

    /** First fit from the scan start; asks for more memory at most once, and only when nothing fits. */
    method Malloc(nbytes: nat, available: bool) returns (r: int)
      requires Unused() || Valid(State())
      modifies this
      ensures Valid(State()) && LiveSame(old(State()), State())
      ensures r == NULL ==> !available && live == old(live) && head.Keys == old(head).Keys
                            && forall i :: 0 <= i < |nodes| ==> SmallAt(State(), i, Units(nbytes))
      ensures r != NULL ==> r - 1 !in old(live) && live == old(live) + {r - 1} && r - 1 in blocks && blocks[r - 1] == Units(nbytes)
      ensures r != NULL ==> StartsAt(State(), r - 1)
      ensures head.Keys == old(head).Keys
              || (available && head.Keys == old(head).Keys + Chunk(old(brk), Max(Units(nbytes), MINCORE))
                  && forall i :: 0 <= i < |old(nodes)| ==> SmallAt(old(State()), i, Units(nbytes)))
      ensures r != NULL ==> r - 1 in blocks && 8 * (blocks[r - 1] - 1) >= nbytes && (nbytes > 0 ==> 8 * (blocks[r - 1] - 2) < nbytes)
      ensures head.Keys != old(head).Keys ==> Grew(old(head).Keys, head.Keys, old(brk), Units(nbytes))
      ensures old(Valid(State())) && SomeFits(old(State()), Units(nbytes)) ==> r != NULL && FirstFit(old(State()), Units(nbytes), r - 1)
    {
      hide Valid, Sound, StartsAt, LiveSame, Units, Scanning, FirstFit, SmallAt, SomeFits, Chunk, Around, Standing, Grew;
      var nunits := Units(nbytes);
      if Valid(State()) { FreepPositive(State()); }
      if freep == NULL {
        Start();
      }
      ghost var h0, grown, s, g := State(), false, 1, 0;
      ghost var f := FreepIndex(h0);
      ScanStart(h0, f, nunits);
      var prevp := freep;
      var p := ptr[prevp];
      while true
        invariant Scanning(h0, State(), f, s, g, grown, nunits) && Valid(State()) && Standing(State(), f, s, prevp, p) && s <= |nodes|
        invariant grown ==> available
        decreases !grown, |nodes| - s
      {
        ghost var h := State();
        ghost var i := ScanHere(h0, h, f, s, g, grown, nunits, prevp, p);
        if size[p] >= nunits {
          r := Take(prevp, p, nunits, i);
          LiveSameChain(h0, h, State());
          LiveSameFrom(old(State()), h0, State());
          GrewBy(h0, head.Keys, nunits);
          return r;
        }
        if p == freep {
          p, g := Morecore(nunits, available);
          if p == NULL {
            LiveSameFrom(old(State()), h0, State());
            NoneFits(h0, nunits);
            return NULL;
          }
          grown, s := true, 0;
          f, g := ScanAgain(h0, State(), g, nunits);
        }
        prevp := p;
        p := ptr[p];
        s := s + 1;
      }
    }
  }

  /** The scan has passed s - 1 blocks behind the scan start.  Before asking for
      memory all of them were too small; afterwards a fitting block, the g-th, is
      still ahead, and no block fitted before. */
  ghost predicate Scanning(h0: Heap, h: Heap, f: int, s: int, g: int, grown: bool, n: int) {
    && Valid(h0) && Valid(h) && h.live == h0.live && LiveSame(h0, h) && n > 0
    && 0 <= f < |h.nodes| && h.nodes[f] == h.freep && 1 <= s <= |h.nodes|
    && (!grown ==> h == h0 && forall q :: 1 <= q < s ==> PassedOver(h0, f, q, n))
    && (grown ==> s <= g <= |h.nodes| && !PassedOver(h, f, g, n) && h.head.Keys == h0.head.Keys + Chunk(h0.brk, Max(n, MINCORE))
                  && forall i :: 0 <= i < |h0.nodes| ==> SmallAt(h0, i, n))
  }

  /** The pointers of the scan: p at the s-th block behind the scan start, prevp before it. */
  ghost predicate Standing(h: Heap, f: int, s: int, prevp: int, p: int) {
    && 0 <= f < |h.nodes| && 1 <= s <= |h.nodes|
    && prevp == h.nodes[Around(f + s - 1, |h.nodes|)] && p == h.nodes[Around(f + s, |h.nodes|)]
  }

  lemma ScanStart(h: Heap, f: int, n: int)
    requires Valid(h) && 0 <= f < |h.nodes| && h.nodes[f] == h.freep && n > 0
    ensures Scanning(h, h, f, 1, 0, false, n) && 1 <= |h.nodes|
    ensures h.freep in h.ptr && Standing(h, f, 1, h.freep, h.ptr[h.freep])
  {
    NextNode(h, f);
  }

  /** After more memory the scan starts again behind freep; the new chunk lies at node g. */
  lemma ScanAgain(h0: Heap, h: Heap, g: int, n: int) returns (f: int, k: int)
    requires Valid(h0) && Valid(h) && h.live == h0.live && LiveSame(h0, h) && n > 0
    requires 0 <= g < |h.nodes| && h.nodes[g] in h.size && h.size[h.nodes[g]] >= n
    requires h.nodes[g] == h.freep || (g > 0 && h.nodes[g - 1] == h.freep)
    requires h.head.Keys == h0.head.Keys + Chunk(h0.brk, Max(n, MINCORE)) && forall i :: 0 <= i < |h0.nodes| ==> SmallAt(h0, i, n)
    ensures Scanning(h0, h, f, 1, k, true, n) && 1 <= |h.nodes|
    ensures h.freep in h.ptr && Standing(h, f, 1, h.freep, h.ptr[h.freep])
  {
    hide Valid, LiveSame, Chunk;
    f, k := if h.nodes[g] == h.freep then g else g - 1, if h.nodes[g] == h.freep then |h.nodes| else 1;
    NextNode(h, f);
  }

  /** At the block the scan looks at: it fits, and is the first fit, or the scan has come round,
      or there is a next block. */
  lemma ScanHere(h0: Heap, h: Heap, f: int, s: int, g: int, grown: bool, n: int, prevp: int, p: int) returns (i: int)
    requires Scanning(h0, h, f, s, g, grown, n) && Standing(h, f, s, prevp, p)
    ensures 0 <= i < |h.nodes| && p == h.nodes[i] && p in h.size && p in h.ptr
    ensures n > 0 && Valid(h0) && Valid(h) && h.live == h0.live && LiveSame(h0, h)
    ensures h.head.Keys == h0.head.Keys || (grown && h.head.Keys == h0.head.Keys + Chunk(h0.brk, Max(n, MINCORE))
                                            && forall j :: 0 <= j < |h0.nodes| ==> SmallAt(h0, j, n))
    ensures h.size[p] >= n ==> i > 0 && prevp == h.nodes[i - 1] && (SomeFits(h0, n) ==> FirstFit(h0, n, p + h.size[p] - n))
    ensures h.size[p] < n && p == h.freep ==> !grown && h == h0 && forall j :: 0 <= j < |h.nodes| ==> SmallAt(h0, j, n)
    ensures h.size[p] < n && p != h.freep ==> s < |h.nodes| && Scanning(h0, h, f, s + 1, g, grown, n) && Standing(h, f, s + 1, p, h.ptr[p])
  {
    hide Valid, LiveSame, Chunk, SomeFits;
    i := Around(f + s, |h.nodes|);
    NodeFacts(h, i);
    NextNode(h, i);
    ScanFits(h0, h, f, s, g, grown, n);
    if h.size[p] < n {
      assert SmallAt(h, i, n) && PassedOver(h, f, s, n);
      if p == h.freep {
        NodeFacts(h, f);
        assert s == |h.nodes|;
        if !grown { AllVisited(h0, f, n); }
      }
    }
  }

  /** Block s behind the scan start fits n units and no earlier one does; b is its top n units. */
  ghost predicate FitsAt(h: Heap, f: int, s: int, n: int, b: int) {
    && 0 <= f < |h.nodes| && h.nodes[f] == h.freep && 1 <= s <= |h.nodes|
    && (forall q :: 1 <= q < s ==> PassedOver(h, f, q, n))
    && var i := Around(f + s, |h.nodes|);
       0 <= i < |h.nodes| && h.nodes[i] in h.size && h.size[h.nodes[i]] >= n && b == h.nodes[i] + h.size[h.nodes[i]] - n
  }

  ghost predicate FirstFit(h: Heap, n: int, b: int) { exists f, s :: FitsAt(h, f, s, n, b) }

  ghost predicate SomeFits(h: Heap, n: int) { exists i :: 0 <= i < |h.nodes| && !SmallAt(h, i, n) }

  lemma ScanFits(h0: Heap, h: Heap, f: int, s: int, g: int, grown: bool, n: int)
    requires Scanning(h0, h, f, s, g, grown, n)
    ensures var i := Around(f + s, |h.nodes|);
            && 0 <= i < |h.nodes| && h.nodes[i] in h.size
            && (h.size[h.nodes[i]] >= n && SomeFits(h0, n) ==> FirstFit(h0, n, h.nodes[i] + h.size[h.nodes[i]] - n))
  {
    var i := Around(f + s, |h.nodes|);
    NodeFacts(h, i);
    if h.size[h.nodes[i]] >= n && !grown {
      assert FitsAt(h, f, s, n, h.nodes[i] + h.size[h.nodes[i]] - n);
    }
  }

  lemma NoneFits(h: Heap, n: int)
    requires forall i :: 0 <= i < |h.nodes| ==> SmallAt(h, i, n)
    ensures !SomeFits(h, n)
  {}

  lemma PositiveBlock(h: Heap, p: int)
    requires Valid(h) && p in h.nodes
    ensures p > NULL
  {
    var i :| 0 <= i < |h.nodes| && h.nodes[i] == p;
    assert h.nodes[0] <= h.nodes[i];
  }

  lemma FreepIndex(h: Heap) returns (f: int)
    requires Valid(h)
    ensures 0 <= f < |h.nodes| && h.nodes[f] == h.freep
  {
    f :| 0 <= f < |h.nodes| && h.nodes[f] == h.freep;
  }

  lemma LiveSameSelf(h: Heap)
    ensures LiveSame(h, h)
  {}

  lemma LiveSameFrom(h: Heap, h0: Heap, r: Heap)
    requires h0.live == h.live && h0.blocks == h.blocks && LiveSame(h0, r)
    ensures LiveSame(h, r)
  {}

  /** The link and size words after freeing, as the code computes them. */
  lemma SpliceStates(h: Heap, bp: int, t: int)
    requires Valid(h) && bp in h.live && IsPlace(h.nodes, bp, t)
    ensures bp in h.size && h.nodes[t] in h.ptr && h.ptr[h.nodes[t]] in h.ptr && h.ptr[h.nodes[t]] in h.size && h.nodes[t] in h.size
    ensures var (p, q) := (h.nodes[t], h.ptr[h.nodes[t]]);
            var right, left := bp + h.size[bp] == q, p + h.size[p] == bp;
            var size1 := if right then h.size[bp := h.size[bp] + h.size[q]] else h.size;
            var ptr1 := h.ptr[bp := if right then h.ptr[q] else q];
            var r := Released(h, bp, t);
            && p != bp && r.size == (if left then size1[p := h.size[p] + size1[bp]] else size1)
            && r.ptr == (if left then ptr1[p := ptr1[bp]] else ptr1[p := bp])
            && r.freep == p && r.base == h.base && r.brk == h.brk
  {
    MiddleKeeps(h, bp, t);
    MiddleWords(h, bp, t);
    hide Valid, ValidBut, Middle, Joined, LiveSame;
    var (p, q) := (h.nodes[t], h.ptr[h.nodes[t]]);
    LeftWords(Middle(h, bp, t), t, h.ptr[bp := if bp + h.size[bp] == q then h.ptr[q] else q]);
  }

  lemma MiddleWords(h: Heap, bp: int, t: int)
    requires Valid(h) && bp in h.live && IsPlace(h.nodes, bp, t)
    ensures bp in h.size && h.nodes[t] in h.ptr && h.ptr[h.nodes[t]] in h.ptr && h.ptr[h.nodes[t]] in h.size && h.nodes[t] in h.size
    ensures var (p, q) := (h.nodes[t], h.ptr[h.nodes[t]]);
            var right := bp + h.size[bp] == q;
            var s := Middle(h, bp, t);
            && s.size == (if right then h.size[bp := h.size[bp] + h.size[q]] else h.size)
            && s.ptr == h.ptr[bp := if right then h.ptr[q] else q][p := bp]
  {
    LinkedNext(h, bp, t);
    LinkedSound(h, bp, t);
    InsertAt(h.nodes, t, bp, t + 1);
    hide Tiles, InsertAfter, RemoveAt, Circular, Gap, Rehead;
    var (p, q) := (h.nodes[t], h.ptr[h.nodes[t]]);
    if bp + h.size[bp] == q {
      assert q == h.nodes[t + 1] && p < bp < q;
      assert h.ptr[bp := q][p := bp][bp := h.ptr[q]] == h.ptr[bp := h.ptr[q]][p := bp];
    }
  }

  lemma LeftWords(s: Heap, t: int, ptr1: map<int, int>)
    requires Sound(s) && 0 <= t < |s.nodes| - 1 && s.nodes[t + 1] in ptr1 && s.ptr == ptr1[s.nodes[t] := s.nodes[t + 1]]
    ensures s.nodes[t] < s.nodes[t + 1]
    ensures t > 0 ==> var r, p, q := Joined(s, t), s.nodes[t], s.nodes[t + 1];
              && p in s.size && q in s.size && r.size == s.size[p := s.size[p] + s.size[q]] && r.ptr == ptr1[p := ptr1[q]]
              && r.freep == s.freep && r.base == s.base && r.brk == s.brk
  {
    hide Tiles, RemoveAt, Circular, Rehead;
    var p, q := s.nodes[t], s.nodes[t + 1];
    if t > 0 {
      assert p in s.nodes && q in s.nodes && s.nodes[0] < p;
      assert ptr1[p := q][p := ptr1[q]] == ptr1[p := ptr1[q]];
    }
  }

  lemma LinkedNext(h: Heap, bp: int, t: int)
    requires Valid(h) && bp in h.live && IsPlace(h.nodes, bp, t)
    ensures bp in h.size && h.nodes[t] in h.size && h.nodes[t] in h.ptr
    ensures h.ptr[h.nodes[t]] == if t + 1 < |h.nodes| then h.nodes[t + 1] else h.base
    ensures h.ptr[h.nodes[t]] in h.ptr && h.ptr[h.nodes[t]] in h.size
    ensures t + 1 == |h.nodes| ==> bp + h.size[bp] != h.ptr[h.nodes[t]]
    ensures var r := Linked(h, bp, t);
            && r.ptr[bp] == h.ptr[h.nodes[t]] && |r.nodes| == |h.nodes| + 1 && (t + 1 < |h.nodes| ==> r.nodes[t + 2] == h.nodes[t + 1])
  {
    hide Tiles;
    assert Link(h.nodes, h.ptr, t) && Link(h.nodes, h.ptr, Succ(t, |h.nodes|));
    assert h.nodes[t] in h.nodes && h.nodes[Succ(t, |h.nodes|)] in h.nodes && bp in h.blocks;
    TilesPositive(h.blocks, h.head);
    if t + 1 < |h.nodes| {
      InsertAt(h.nodes, t, bp, t + 2);
    }
  }

  /** The units sbrk adds. */
  function Chunk(from: int, n: int): (r: set<int>)
    ensures forall x :: x in r <==> from <= x < from + n
  {
    if n <= 0 then {} else Chunk(from, n - 1) + {from + n - 1}
  }

  /** The units new to the arena are n of them behind its old end, but at least 4096. */
  ghost predicate Grew(was: set<int>, now: set<int>, brk: int, n: int) {
    was <= now && forall x :: x in now && x !in was <==> brk <= x < brk + 4096 || brk <= x < brk + n
  }

  lemma GrewBy(h: Heap, now: set<int>, n: int)
    requires Valid(h)
    ensures now == h.head.Keys + Chunk(h.brk, Max(n, MINCORE)) ==> Grew(h.head.Keys, now, h.brk, n)
  {
    forall x | x in h.head ensures x < h.brk {
      assert In(h.blocks, h.head[x], x);
    }
  }

  ghost predicate SmallAt(h: Heap, i: int, n: int) {
    0 <= i < |h.nodes| && h.nodes[i] in h.size && h.size[h.nodes[i]] < n
  }

  lemma LastPlace(s: seq<int>, x: int)
    requires Sorted(s) && |s| > 0 && forall b :: b in s ==> b < x
    ensures IsPlace(s, x, |s| - 1) && forall u :: IsPlace(s, x, u) ==> u == |s| - 1
  {
    assert s[|s| - 1] in s;
    forall u | 0 <= u < |s| ensures s[u] < x {
      assert s[u] in s;
    }
  }

  /** A chunk above everything ends up in the last free block, or behind it. */
  lemma ReleasedLast(e: Heap, p: int) returns (g: int)
    requires Valid(e) && p in e.live && IsPlace(e.nodes, p, |e.nodes| - 1) && p in e.size
    ensures var r := Released(e, p, |e.nodes| - 1);
            && 0 <= g < |r.nodes| && r.nodes[g] in r.size && r.size[r.nodes[g]] >= e.size[p]
            && (r.nodes[g] == r.freep || (g > 0 && r.nodes[g - 1] == r.freep))
  {
    var t := |e.nodes| - 1;
    MiddleKeeps(e, p, t);
    MiddleWords(e, p, t);
    LinkedNext(e, p, t);
    var s := Middle(e, p, t);
    hide Valid, Middle, Tiles, Circular, RemoveAt, Rehead, LiveSame;
    assert s.size == e.size;
    if s.nodes[t] + s.size[s.nodes[t]] == p {
      g := t;
      RemovedAt(s.nodes, t + 1, t);
      SizePositive(s, s.nodes[t]);
    } else {
      g := t + 1;
    }
  }

  lemma SizePositive(h: Heap, b: int)
    requires Sound(h) && b in h.nodes
    ensures b in h.size && h.size[b] >= 0
  {}

  lemma HeadKeys(h: Heap, n: int)
    ensures Extended(h, n).head.Keys == h.head.Keys + Chunk(h.brk, n)
  {}

  lemma ExtendedLive(h: Heap, n: int)
    requires Valid(h) && h.brk !in h.blocks
    ensures LiveSame(h, Extended(h, n))
  {}

  lemma LiveOwned(h: Heap, b: int)
    requires Valid(h) && b !in h.blocks
    ensures b !in h.live
  {}

  lemma FreepPositive(h: Heap)
    requires Valid(h)
    ensures h.freep > NULL
  {
    PositiveBlock(h, h.freep);
  }

  /** The list malloc starts with: the empty block pointing to itself. */
  lemma FirstList(h: Heap)
    requires NULL < h.base < h.brk && h.freep == h.base && h.nodes == [h.base] && h.live == {} && h.blocks == map[] && h.head == map[]
    requires h.base in h.ptr && h.ptr[h.base] == h.base && h.base in h.size && h.size[h.base] == 0
    ensures Valid(h)
  {
    assert Link(h.nodes, h.ptr, 0);
  }

  lemma NextNode(h: Heap, i: int)
    requires Valid(h) && 0 <= i < |h.nodes|
    ensures h.nodes[i] in h.ptr && h.ptr[h.nodes[i]] == h.nodes[Succ(i, |h.nodes|)]
  {
    assert Link(h.nodes, h.ptr, i);
  }

  lemma NodeFacts(h: Heap, i: int)
    requires Valid(h) && 0 <= i < |h.nodes|
    ensures h.nodes[i] in h.size && h.nodes[i] in h.ptr && h.base in h.size && h.size[h.base] == 0 && h.nodes[0] == h.base
    ensures h.nodes[i] !in h.live && (i > 0 ==> h.nodes[i] in h.blocks && h.blocks[h.nodes[i]] == h.size[h.nodes[i]])
    ensures forall j :: 0 <= j < |h.nodes| && h.nodes[j] == h.nodes[i] ==> j == i
  {
    assert Link(h.nodes, h.ptr, i) && h.nodes[i] in h.nodes;
    assert i > 0 ==> h.nodes[0] < h.nodes[i];
  }

  lemma UnlinkedWords(h: Heap, i: int)
    requires Valid(h) && 0 < i < |h.nodes|
    ensures var (r, p) := (Unlinked(h, i), h.nodes[i]);
            && p in h.ptr && r == h.(ptr := h.ptr[h.nodes[i - 1] := h.ptr[p]], nodes := r.nodes, live := h.live + {p}, freep := h.nodes[i - 1])
            && LiveSame(h, r)
  {
    assert Link(h.nodes, h.ptr, i);
  }

  lemma CarvedWords(h: Heap, i: int, n: int, prev: int)
    requires Valid(h) && 0 < i < |h.nodes| && h.nodes[i] in h.size && 0 < n < h.size[h.nodes[i]]
    ensures var (r, p) := (Carved(h, i, n, prev), h.nodes[i]);
            var q := p + h.size[p] - n;
            && r == h.(size := h.size[p := h.size[p] - n][q := n], live := h.live + {q}, freep := prev, blocks := r.blocks, head := r.head)
            && q in r.blocks && r.blocks[q] == n && r.head.Keys == h.head.Keys
    ensures h.nodes[i] + h.size[h.nodes[i]] - n !in h.blocks ==> LiveSame(h, Carved(h, i, n, prev))
  {
    assert h.nodes[i] in h.nodes && h.nodes[0] < h.nodes[i];
  }

  /** The q-th block behind the scan start is too small. */
  ghost predicate PassedOver(h: Heap, f: int, q: int, n: int) {
    SmallAt(h, Around(f + q, |h.nodes|), n)
  }

  lemma AllVisited(h: Heap, f: int, n: int)
    requires 0 <= f < |h.nodes| && SmallAt(h, f, n)
    requires forall q :: 1 <= q < |h.nodes| ==> PassedOver(h, f, q, n)
    ensures forall i :: 0 <= i < |h.nodes| ==> SmallAt(h, i, n)
  {
    forall i | 0 <= i < |h.nodes| ensures SmallAt(h, i, n) {
      var q := if i >= f then i - f else i - f + |h.nodes|;
      assert Around(f + q, |h.nodes|) == i && (q > 0 ==> PassedOver(h, f, q, n));
    }
  }
}
