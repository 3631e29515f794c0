/** The lab's allocator: one mapped region cut into blocks, each behind a
    sixteen-byte header, with first-, best- and worst-fit placement. */
module MemAlloc {

  const NULL := 0
  const HDR := 16          // sizeof(node)
  const PAGE := 4096

  const E_NO_SPACE := 1
  const E_BAD_ARGS := 4
  const E_BAD_POINTER := 5

  const M_BESTFIT := 0
  const M_WORSTFIT := 1   // every other style is first fit

  /** A block: where its header lies, how many bytes follow it, whether it is free. */
  datatype Block = Block(addr: int, len: int, free: bool)

  // ----- block lists

  function EndOf(b: Block): int { b.addr + HDR + b.len }

  /** The blocks tile [lo, hi) and are eight-byte aligned. */
  predicate Tiles(bs: seq<Block>, lo: int, hi: int) {
    if bs == [] then lo == hi
    else bs[0].addr == lo && lo % 8 == 0 && bs[0].len >= 0 && bs[0].len % 8 == 0 && Tiles(bs[1..], EndOf(bs[0]), hi)
  }

  predicate BothFree(bs: seq<Block>, i: int)
    requires 0 < i < |bs|
  {
    bs[i - 1].free && bs[i].free
  }

  predicate NoFreeNeighbours(bs: seq<Block>) {
    forall i :: 0 < i < |bs| ==> !BothFree(bs, i)
  }

  /** A free block has bytes: one without would look allocated. */
  predicate FreeHasBytes(bs: seq<Block>) {
    forall i :: 0 <= i < |bs| && bs[i].free ==> bs[i].len > 0
  }

  predicate WellFormed(bs: seq<Block>, lo: int, hi: int) {
    bs != [] && lo > NULL && Tiles(bs, lo, hi) && NoFreeNeighbours(bs) && FreeHasBytes(bs)
  }

  function EndFrom(bs: seq<Block>, lo: int): int { if bs == [] then lo else EndOf(bs[|bs| - 1]) }

  lemma {:induction false} TilesSplit(a: seq<Block>, b: seq<Block>, lo: int, hi: int)
    ensures Tiles(a + b, lo, hi) <==> Tiles(a, lo, EndFrom(a, lo)) && Tiles(b, EndFrom(a, lo), hi)
  {
    if a == [] {
      assert a + b == b;
    } else {
      assert (a + b)[1..] == a[1..] + b;
      TilesSplit(a[1..], b, EndOf(a[0]), hi);
    }
  }

  lemma {:induction false} TilesAt(bs: seq<Block>, lo: int, hi: int, i: nat)
    requires Tiles(bs, lo, hi) && i < |bs|
    ensures lo <= bs[i].addr && EndOf(bs[i]) <= hi && bs[i].addr % 8 == 0 && bs[i].len >= 0 && bs[i].len % 8 == 0
    ensures if i + 1 < |bs| then EndOf(bs[i]) == bs[i + 1].addr else EndOf(bs[i]) == hi
    ensures i == 0 ==> bs[i].addr == lo
  {
    TilesBounds(bs, lo, hi);
    if i > 0 {
      TilesAt(bs[1..], EndOf(bs[0]), hi, i - 1);
    } else if |bs| > 1 {
      assert bs[1..][0] == bs[1];
      TilesBounds(bs[1..], EndOf(bs[0]), hi);
    }
  }

  lemma {:induction false} TilesBounds(bs: seq<Block>, lo: int, hi: int)
    requires Tiles(bs, lo, hi)
    ensures lo <= hi
  {
    if bs != [] {
      TilesBounds(bs[1..], EndOf(bs[0]), hi);
    }
  }

  /** Later blocks lie higher. */
  lemma {:induction false} AddressesRise(bs: seq<Block>, lo: int, hi: int, i: nat, j: nat)
    requires Tiles(bs, lo, hi) && i < j < |bs|
    ensures EndOf(bs[i]) <= bs[j].addr
    decreases j
  {
    TilesAt(bs, lo, hi, j - 1);
    TilesAt(bs, lo, hi, j);
    if i < j - 1 {
      AddressesRise(bs, lo, hi, i, j - 1);
    }
  }

  // ----- allocation on block lists

  /** What a block's header says: an allocated block has size 0. */
  function SizeOf(b: Block): int { if b.free then b.len else 0 }

  predicate Fits(b: Block, n: int) { n <= SizeOf(b) }

  /** Block t is where a request of n bytes goes under the given style. */
  predicate IsChoice(bs: seq<Block>, n: int, style: int, t: int) {
    IsChoiceBelow(bs, n, style, t, |bs|)
  }

  /** The same among the first k blocks. */
  predicate IsChoiceBelow(bs: seq<Block>, n: int, style: int, t: int, k: int) {
    && 0 <= t < k <= |bs| && Fits(bs[t], n)
    && (forall i :: 0 <= i < k && Fits(bs[i], n) ==>
          if style == M_BESTFIT then SizeOf(bs[t]) < SizeOf(bs[i]) || (SizeOf(bs[t]) == SizeOf(bs[i]) && t <= i)
          else if style == M_WORSTFIT then SizeOf(bs[t]) > SizeOf(bs[i]) || (SizeOf(bs[t]) == SizeOf(bs[i]) && t <= i)
          else t <= i)
  }

  /** Before the first block that fits nothing does, so it is the choice so far; and for
      first fit that is all. */
  lemma FirstChoice(bs: seq<Block>, n: int, style: int, t: int)
    requires 0 <= t < |bs| && Fits(bs[t], n) && forall k :: 0 <= k < t ==> !Fits(bs[k], n)
    ensures IsChoiceBelow(bs, n, style, t, t + 1)
    ensures style != M_BESTFIT && style != M_WORSTFIT ==> IsChoiceBelow(bs, n, style, t, |bs|)
  {}

  lemma ChoiceBlock(bs: seq<Block>, n: int, style: int, t: int, k: int)
    requires IsChoiceBelow(bs, n, style, t, k)
    ensures 0 <= t < k <= |bs| && Fits(bs[t], n)
  {}

  lemma Chosen(bs: seq<Block>, n: int, style: int, t: int)
    requires IsChoice(bs, n, style, t)
    ensures 0 <= t < |bs| && Fits(bs[t], n)
  {}

  lemma NothingChosen(bs: seq<Block>, n: int, style: int)
    requires forall i :: 0 <= i < |bs| ==> !Fits(bs[i], n)
    ensures forall t :: !IsChoice(bs, n, style, t)
  {}

  /** The choice among one more block. */
  lemma NextChoice(bs: seq<Block>, n: int, style: int, t: int, k: int)
    requires IsChoiceBelow(bs, n, style, t, k) && k < |bs| && 0 <= t < |bs|
    ensures style == M_BESTFIT ==> IsChoiceBelow(bs, n, style, if Fits(bs[k], n) && SizeOf(bs[k]) < SizeOf(bs[t]) then k else t, k + 1)
    ensures style == M_WORSTFIT ==> IsChoiceBelow(bs, n, style, if SizeOf(bs[k]) > SizeOf(bs[t]) then k else t, k + 1)
  {}

  /** n bytes taken from a block; what is left becomes a block if more than a header remains. */
  function Cut(b: Block, n: int): (r: seq<Block>)
    ensures |r| > 0
  {
    if b.len - n > HDR then [Block(b.addr, n, false), Block(b.addr + n + HDR, b.len - (n + HDR), true)]
    else [b.(free := false)]
  }

  function AllocAt(bs: seq<Block>, t: int, n: int): seq<Block>
    requires 0 <= t < |bs|
  {
    bs[..t] + Cut(bs[t], n) + bs[t + 1..]
  }

  /** Block t joined with the one behind it. */
  function MergeAt(bs: seq<Block>, t: int): seq<Block>
    requires 0 <= t < |bs| - 1
  {
    bs[..t] + [Block(bs[t].addr, bs[t].len + HDR + bs[t + 1].len, true)] + bs[t + 2..]
  }

  /** Block t freed and joined with its free neighbours. */
  function Joined(bs: seq<Block>, t: int): seq<Block>
    requires 0 <= t < |bs|
  {
    var marked := bs[t := bs[t].(free := true)];
    var left := if t > 0 && bs[t - 1].free then MergeAt(marked, t - 1) else marked;
    var at := if t > 0 && bs[t - 1].free then t - 1 else t;
    if at + 1 < |left| && left[at + 1].free then MergeAt(left, at) else left
  }

  /** A block of zero bytes with no free neighbour. */
  predicate Lonely(bs: seq<Block>, t: int)
    requires 0 <= t < |bs|
  {
    bs[t].len == 0 && !(t > 0 && bs[t - 1].free) && !(t + 1 < |bs| && bs[t + 1].free)
  }

  /** What freeing does; a lonely block still has size 0 in its header and stays as it is. */
  function FreeAt(bs: seq<Block>, t: int): seq<Block>
    requires 0 <= t < |bs|
  {
    if Lonely(bs, t) then bs else Joined(bs, t)
  }

  /** The request was served from the block the style picks, at address r; a block that was
      allocated already stays as it is. */
  ghost predicate Served(bs: seq<Block>, bs': seq<Block>, n: int, style: int, r: int) {
    exists t :: ServedAt(bs, bs', n, style, r, t)
  }

  ghost predicate ServedAt(bs: seq<Block>, bs': seq<Block>, n: int, style: int, r: int, t: int) {
    IsChoice(bs, n, style, t) && r == bs[t].addr + HDR && bs' == if bs[t].free then AllocAt(bs, t, n) else bs
  }

  /** The block the style picks is to be cut though the request is negative: the header of the
      rest would lie over this block's own header, or in front of it. */
  ghost predicate Overlaps(bs: seq<Block>, n: int, style: int) {
    n < 0 && exists t :: IsChoice(bs, n, style, t) && SizeOf(bs[t]) - n > HDR
  }

  ghost predicate IsAllocated(bs: seq<Block>, ptr: int) {
    exists t :: 0 <= t < |bs| && !bs[t].free && bs[t].addr + HDR == ptr
  }

  ghost predicate Released(bs: seq<Block>, bs': seq<Block>, ptr: int) {
    exists t :: ReleasedAt(bs, bs', ptr, t)
  }

  ghost predicate ReleasedAt(bs: seq<Block>, bs': seq<Block>, ptr: int, t: int) {
    0 <= t < |bs| && !bs[t].free && bs[t].addr + HDR == ptr && bs' == FreeAt(bs, t)
  }

  lemma ReplaceTiles(bs: seq<Block>, t: int, k: int, piece: seq<Block>, lo: int, hi: int)
    requires Tiles(bs, lo, hi) && 0 <= t < k <= |bs| && piece != []
    requires Tiles(piece, bs[t].addr, EndOf(bs[k - 1]))
    ensures Tiles(bs[..t] + piece + bs[k..], lo, hi)
  {
    hide Tiles, EndOf;
    var a, m, c := bs[..t], bs[t..k], bs[k..];
    var mid := EndFrom(a, lo);
    assert bs == a + (m + c);
    assert bs[..t] + piece + bs[k..] == a + (piece + c);
    TilesSplit(a, m + c, lo, hi);
    TilesSplit(m, c, mid, hi);
    TilesStart(m, mid, EndFrom(m, mid));
    TilesLast(piece, mid, EndOf(bs[k - 1]));
    TilesSplit(piece, c, mid, hi);
    TilesSplit(a, piece + c, lo, hi);
  }

  lemma TilesStart(bs: seq<Block>, lo: int, hi: int)
    requires Tiles(bs, lo, hi) && bs != []
    ensures bs[0].addr == lo
  {}

  lemma {:induction false} TilesLast(bs: seq<Block>, lo: int, hi: int)
    requires Tiles(bs, lo, hi) && bs != []
    ensures EndOf(bs[|bs| - 1]) == hi
  {
    TilesAt(bs, lo, hi, |bs| - 1);
  }

  /** Allocating keeps the region tiled, aligned and free of adjacent free blocks. */
  lemma AllocKeeps(bs: seq<Block>, t: int, n: int, lo: int, hi: int)
    requires WellFormed(bs, lo, hi) && 0 <= t < |bs| && Fits(bs[t], n) && bs[t].free && n % 8 == 0
    requires n >= 0 || bs[t].len - n <= HDR
    ensures WellFormed(AllocAt(bs, t, n), lo, hi)
  {
    hide Tiles, Cut, EndOf;
    AllocHasBytes(bs, t, n);
    TilesAt(bs, lo, hi, t);
    CutTiles(bs[t], n);
    ReplaceTiles(bs, t, t + 1, Cut(bs[t], n), lo, hi);
    AllocNeighbours(bs, t, n);
  }

  lemma AllocHasBytes(bs: seq<Block>, t: int, n: int)
    requires FreeHasBytes(bs) && 0 <= t < |bs|
    ensures FreeHasBytes(AllocAt(bs, t, n))
  {}

  lemma CutTiles(b: Block, n: int)
    requires b.addr % 8 == 0 && b.len >= 0 && b.len % 8 == 0 && n % 8 == 0 && n <= b.len && (n >= 0 || b.len - n <= HDR)
    ensures Tiles(Cut(b, n), b.addr, EndOf(b))
  {
    var cut := Cut(b, n);
    if |cut| == 2 {
      assert cut[1..] == [cut[1]] && cut[1..][1..] == [];
    } else {
      assert cut[1..] == [];
    }
  }

  lemma AllocNeighbours(bs: seq<Block>, t: int, n: int)
    requires NoFreeNeighbours(bs) && 0 <= t < |bs| && bs[t].free
    ensures NoFreeNeighbours(AllocAt(bs, t, n))
  {
    var r := AllocAt(bs, t, n);
    var grown := |r| - |bs|;
    forall i | 0 < i < |r| ensures !BothFree(r, i) {
      if i < t {
        assert r[i - 1] == bs[i - 1] && r[i] == bs[i] && !BothFree(bs, i);
      } else if i > t + 1 + grown {
        assert r[i - 1] == bs[i - 1 - grown] && r[i] == bs[i - grown] && !BothFree(bs, i - grown);
      } else if i == t + 1 + grown {
        assert r[i] == bs[t + 1] && !BothFree(bs, t + 1);
      }
    }
  }

  lemma MergeTiles(bs: seq<Block>, t: int, lo: int, hi: int)
    requires Tiles(bs, lo, hi) && 0 <= t < |bs| - 1
    ensures Tiles(MergeAt(bs, t), lo, hi)
  {
    TilesAt(bs, lo, hi, t);
    TilesAt(bs, lo, hi, t + 1);
    var m := [Block(bs[t].addr, bs[t].len + HDR + bs[t + 1].len, true)];
    assert m[1..] == [];
    ReplaceTiles(bs, t, t + 2, m, lo, hi);
  }

  lemma {:induction false} MarkTiles(bs: seq<Block>, t: int, lo: int, hi: int, free: bool)
    requires Tiles(bs, lo, hi) && 0 <= t < |bs|
    ensures Tiles(bs[t := bs[t].(free := free)], lo, hi)
  {
    TilesAt(bs, lo, hi, t);
    var m := [bs[t].(free := free)];
    assert m[1..] == [] && bs[t := bs[t].(free := free)] == bs[..t] + m + bs[t + 1..];
    ReplaceTiles(bs, t, t + 1, m, lo, hi);
  }

  /** Freeing keeps the region tiled, aligned and free of adjacent free blocks. */
  lemma FreeKeeps(bs: seq<Block>, t: int, lo: int, hi: int)
    requires WellFormed(bs, lo, hi) && 0 <= t < |bs| && !bs[t].free
    ensures WellFormed(FreeAt(bs, t), lo, hi)
  {
    if !Lonely(bs, t) { JoinedKeeps(bs, t, lo, hi); }
  }

  lemma JoinedKeeps(bs: seq<Block>, t: int, lo: int, hi: int)
    requires WellFormed(bs, lo, hi) && 0 <= t < |bs| && !bs[t].free && !Lonely(bs, t)
    ensures WellFormed(Joined(bs, t), lo, hi)
  {
    hide Tiles, NoFreeNeighbours, FreeHasBytes, MergeAt;
    FreeNeighbours(bs, t);
    forall i | 0 <= i < |bs| ensures bs[i].len >= 0 { TilesAt(bs, lo, hi, i); }
    JoinedHasBytes(bs, t);
    var marked := bs[t := bs[t].(free := true)];
    MarkTiles(bs, t, lo, hi, true);
    var before := t > 0 && bs[t - 1].free;
    if before { MergeTiles(marked, t - 1, lo, hi); }
    var left := if before then MergeAt(marked, t - 1) else marked;
    var at := if before then t - 1 else t;
    if at + 1 < |left| && left[at + 1].free { MergeTiles(left, at, lo, hi); }
  }

  /** Merging at t leaves bytes in every free block, whatever the two blocks had. */
  lemma MergeHasBytes(bs: seq<Block>, t: int)
    requires 0 <= t < |bs| - 1 && forall i :: 0 <= i < |bs| ==> bs[i].len >= 0
    requires forall i :: 0 <= i < |bs| && i != t && i != t + 1 && bs[i].free ==> bs[i].len > 0
    ensures FreeHasBytes(MergeAt(bs, t)) && |MergeAt(bs, t)| == |bs| - 1
    ensures forall i :: 0 <= i < |bs| - 1 ==> MergeAt(bs, t)[i].len >= 0
  {
    var r := MergeAt(bs, t);
    assert forall i :: 0 <= i < |r| && i != t ==> r[i] == if i < t then bs[i] else bs[i + 1];
  }

  lemma JoinedHasBytes(bs: seq<Block>, t: int)
    requires FreeHasBytes(bs) && 0 <= t < |bs| && !Lonely(bs, t) && forall i :: 0 <= i < |bs| ==> bs[i].len >= 0
    ensures FreeHasBytes(Joined(bs, t)) && Joined(bs, t) != []
  {
    hide MergeAt;
    var marked := bs[t := bs[t].(free := true)];
    if t > 0 && bs[t - 1].free {
      MergeHasBytes(marked, t - 1);
      var left := MergeAt(marked, t - 1);
      if t < |left| && left[t].free { MergeHasBytes(left, t - 1); }
    } else if t + 1 < |bs| && bs[t + 1].free {
      MergeHasBytes(marked, t);
    }
  }

  /** Free neighbours occur in bs at most at index t and at index t + 1. */
  ghost predicate ApartFrom(bs: seq<Block>, t: int, u: int) {
    forall i :: 0 < i < |bs| && i != t && i != u ==> !BothFree(bs, i)
  }

  lemma FreeNeighbours(bs: seq<Block>, t: int)
    requires NoFreeNeighbours(bs) && 0 <= t < |bs| && !bs[t].free
    ensures NoFreeNeighbours(Joined(bs, t))
  {
    hide BothFree, ApartFrom, NoFreeNeighbours;
    var marked := bs[t := bs[t].(free := true)];
    MarkNeighbours(bs, t);
    if t > 0 && bs[t - 1].free {
      MergeNeighbours(marked, t - 1, t + 1);
      JoinNext(MergeAt(marked, t - 1), t - 1);
    } else {
      OnlyAbove(marked, t);
      JoinNext(marked, t);
    }
  }

  lemma MarkNeighbours(bs: seq<Block>, t: int)
    requires NoFreeNeighbours(bs) && 0 <= t < |bs| && !bs[t].free
    ensures ApartFrom(bs[t := bs[t].(free := true)], t, t + 1)
  {
    var marked := bs[t := bs[t].(free := true)];
    forall i | 0 < i < |bs| && i != t && i != t + 1 ensures !BothFree(marked, i) {
      assert !BothFree(bs, i);
    }
  }

  lemma OnlyAbove(bs: seq<Block>, t: int)
    requires 0 <= t < |bs| && ApartFrom(bs, t, t + 1) && (t > 0 ==> !bs[t - 1].free)
    ensures ApartFrom(bs, t + 1, t + 1)
  {}

  /** The last step of freeing: block at joined with the one behind it, if that is free. */
  lemma JoinNext(bs: seq<Block>, at: int)
    requires 0 <= at < |bs| && bs[at].free && ApartFrom(bs, at + 1, at + 1)
    ensures NoFreeNeighbours(if at + 1 < |bs| && bs[at + 1].free then MergeAt(bs, at) else bs)
  {
    if at + 1 < |bs| && bs[at + 1].free {
      assert at > 0 ==> !BothFree(bs, at);
      MergeNeighbours(bs, at, at + 1);
    }
  }

  /** Merging at t removes the adjacency at t + 1; one at u behind it moves down by one. */
  lemma MergeNeighbours(bs: seq<Block>, t: int, u: int)
    requires 0 <= t < |bs| - 1 && bs[t].free && bs[t + 1].free && ApartFrom(bs, t + 1, u) && u >= t + 1
    ensures ApartFrom(MergeAt(bs, t), u - 1, u - 1)
  {
    var r := MergeAt(bs, t);
    forall i | 0 < i < |r| && i != u - 1 ensures !BothFree(r, i) {
      assert r[i] == if i < t then bs[i] else if i == t then r[t] else bs[i + 1];
      assert !BothFree(bs, if i <= t then i else i + 1);
    }
  }

  /** Freeing what was just allocated gives back exactly the old block list. */
  lemma FreeUndoesAlloc(bs: seq<Block>, t: int, n: int, lo: int, hi: int)
    requires WellFormed(bs, lo, hi) && 0 <= t < |bs| && bs[t].free && Fits(bs[t], n)
    ensures FreeAt(AllocAt(bs, t, n), t) == bs
  {
    hide Tiles;
    var r := AllocAt(bs, t, n);
    assert t > 0 ==> !BothFree(bs, t);
    if bs[t].len - n > HDR {
      SplitMerges(bs, t, n);
    } else {
      assert r[t := r[t].(free := true)] == bs;
      assert t + 1 < |bs| ==> !BothFree(bs, t + 1);
    }
  }

  /** Joining the two halves of a split free block. */
  lemma SplitMerges(bs: seq<Block>, t: int, n: int)
    requires 0 <= t < |bs| && bs[t].free && bs[t].len - n > HDR
    ensures var r := AllocAt(bs, t, n);
            && |r| == |bs| + 1 && r[..t] == bs[..t] && r[t + 1].free
            && MergeAt(r[t := r[t].(free := true)], t) == bs
  {
    var r := AllocAt(bs, t, n);
    var marked := r[t := r[t].(free := true)];
    assert marked[..t] == bs[..t] && marked[t + 2..] == bs[t + 1..];
    assert marked[t] == Block(bs[t].addr, n, true) && marked[t + 1] == Block(bs[t].addr + n + HDR, bs[t].len - (n + HDR), true);
    assert bs == bs[..t] + [bs[t]] + bs[t + 1..];
  }

  /** mem_free right after mem_alloc, on the pointer it gave, brings back the old block list,
      if that pointer had not been handed out already. */
  lemma FreeUndoesServe(bs: seq<Block>, bs1: seq<Block>, bs2: seq<Block>, n: int, style: int, r: int, lo: int, hi: int)
    requires WellFormed(bs, lo, hi) && n % 8 == 0 && !Overlaps(bs, n, style)
    requires Served(bs, bs1, n, style, r) && Released(bs1, bs2, r) && !IsAllocated(bs, r)
    ensures bs2 == bs
  {
    hide Tiles, FreeAt, AllocAt, NoFreeNeighbours, FreeHasBytes, IsChoice;
    var t :| ServedAt(bs, bs1, n, style, r, t);
    var u :| ReleasedAt(bs1, bs2, r, u);
    Chosen(bs, n, style, t);
    assert bs[t].free;
    AllocKeeps(bs, t, n, lo, hi);
    AllocatedAt(bs, t, n);
    if u != t { HeaderDistinct(bs1, lo, hi, u, t); }
    FreeUndoesAlloc(bs, t, n, lo, hi);
  }

  lemma AllocatedAt(bs: seq<Block>, t: int, n: int)
    requires 0 <= t < |bs|
    ensures var r := AllocAt(bs, t, n); t < |r| && r[t].addr == bs[t].addr && !r[t].free
  {}

  /** What a caller can look at: the size, or, if it is not positive, whether the style comes
      to an allocated block first. */
  ghost predicate GivesFresh(bs: seq<Block>, n: int, style: int)
    requires bs != []
  {
    || n > 0
    || (if style == M_BESTFIT then forall i :: 0 <= i < |bs| ==> bs[i].free
        else if style == M_WORSTFIT then exists i :: 0 <= i < |bs| && bs[i].free
        else bs[0].free)
  }

  /** The block the style picks is free exactly then. */
  lemma ChoiceFree(bs: seq<Block>, n: int, style: int, t: int)
    requires bs != [] && FreeHasBytes(bs) && IsChoice(bs, n, style, t)
    ensures bs[t].free <==> GivesFresh(bs, n, style)
  {
    if n <= 0 {
      if style == M_BESTFIT {
        if i :| 0 <= i < |bs| && !bs[i].free { assert Fits(bs[i], n); }
      } else if style == M_WORSTFIT {
        if i :| 0 <= i < |bs| && bs[i].free { assert Fits(bs[i], n); }
      } else {
        assert Fits(bs[0], n);
      }
    }
  }

  /** The pointer mem_alloc gives is to a block that is allocated afterwards; it had not been
      handed out before exactly if the size is positive, or every block is free for best fit,
      some block for worst fit, the first one for first fit. */
  lemma ServedFresh(bs: seq<Block>, bs': seq<Block>, n: int, style: int, r: int, lo: int, hi: int)
    requires WellFormed(bs, lo, hi) && Served(bs, bs', n, style, r)
    ensures !IsAllocated(bs, r) <==> GivesFresh(bs, n, style)
    ensures IsAllocated(bs', r)
  {
    hide Tiles, NoFreeNeighbours, IsChoice, AllocAt, GivesFresh, FreeHasBytes;
    var t :| ServedAt(bs, bs', n, style, r, t);
    Chosen(bs, n, style, t);
    ChoiceFree(bs, n, style, t);
    AllocatedAt(bs, t, n);
    forall u | 0 <= u < |bs| && u != t ensures bs[u].addr != bs[t].addr {
      HeaderDistinct(bs, lo, hi, u, t);
    }
  }

  /** In a region of one page, first and best fit give the block of a request for 8 bytes again
      to a request for 0, and nothing else. */
  lemma ZeroTwice(style: int)
    requires style != M_WORSTFIT
    ensures var (whole, taken) := ([Block(PAGE, PAGE - HDR, true)], [Block(PAGE, 8, false), Block(PAGE + 8 + HDR, PAGE - 8 - 2 * HDR, true)]);
            && WellFormed(whole, PAGE, 2 * PAGE) && Served(whole, taken, 8, style, PAGE + HDR)
            && Served(taken, taken, 0, style, PAGE + HDR)
            && forall bs, r :: Served(taken, bs, 0, style, r) ==> bs == taken && r == PAGE + HDR && IsAllocated(taken, r)
  {
    var (whole, taken) := ([Block(PAGE, PAGE - HDR, true)], [Block(PAGE, 8, false), Block(PAGE + 8 + HDR, PAGE - 8 - 2 * HDR, true)]);
    OneBlock(PAGE, PAGE - HDR);
    assert AllocAt(whole, 0, 8) == taken;
    assert ServedAt(whole, taken, 8, style, PAGE + HDR, 0);
    assert ServedAt(taken, taken, 0, style, PAGE + HDR, 0);
    forall bs, r | Served(taken, bs, 0, style, r) ensures bs == taken && r == PAGE + HDR && IsAllocated(taken, r) {
      var t :| ServedAt(taken, bs, 0, style, r, t);
      ChoiceUnique(taken, 0, style, t, 0);
    }
  }

  /** With the whole region allocated, so does worst fit. */
  lemma ZeroTwiceWhenFull(style: int)
    ensures var (whole, full) := ([Block(PAGE, PAGE - HDR, true)], [Block(PAGE, PAGE - HDR, false)]);
            && Served(whole, full, PAGE - HDR, style, PAGE + HDR) && Served(full, full, 0, style, PAGE + HDR)
  {
    var (whole, full) := ([Block(PAGE, PAGE - HDR, true)], [Block(PAGE, PAGE - HDR, false)]);
    assert AllocAt(whole, 0, PAGE - HDR) == full;
    assert ServedAt(whole, full, PAGE - HDR, style, PAGE + HDR, 0);
    assert ServedAt(full, full, 0, style, PAGE + HDR, 0);
  }

  /** The size 0 on a fresh region: a block of zero bytes, its header and that of the rest side
      by side, and freeing it brings the one block back. */
  lemma ZeroLengthBlock(style: int)
    ensures var (whole, cut) := ([Block(PAGE, PAGE - HDR, true)], [Block(PAGE, 0, false), Block(PAGE + HDR, PAGE - 2 * HDR, true)]);
            && Served(whole, cut, 0, style, PAGE + HDR) && WellFormed(cut, PAGE, 2 * PAGE) && FreeAt(cut, 0) == whole
  {
    var (whole, cut) := ([Block(PAGE, PAGE - HDR, true)], [Block(PAGE, 0, false), Block(PAGE + HDR, PAGE - 2 * HDR, true)]);
    OneBlock(PAGE, PAGE - HDR);
    assert AllocAt(whole, 0, 0) == cut;
    assert ServedAt(whole, cut, 0, style, PAGE + HDR, 0);
    AllocKeeps(whole, 0, 0, PAGE, 2 * PAGE);
    FreeUndoesAlloc(whole, 0, 0, PAGE, 2 * PAGE);
  }

  /** mem_free leaves the pointer allocated exactly if it is that of a block of zero bytes with
      no free neighbour: its header has size 0 before and after. */
  lemma FreedExactly(bs: seq<Block>, bs': seq<Block>, ptr: int, lo: int, hi: int)
    requires WellFormed(bs, lo, hi) && Released(bs, bs', ptr)
    ensures IsAllocated(bs', ptr) <==> exists t :: 0 <= t < |bs| && bs[t].addr + HDR == ptr && Lonely(bs, t)
  {
    hide Tiles, NoFreeNeighbours, FreeHasBytes, Joined, Lonely;
    var t :| ReleasedAt(bs, bs', ptr, t);
    forall u | 0 <= u < |bs| && u != t ensures bs[u].addr != bs[t].addr {
      HeaderDistinct(bs, lo, hi, u, t);
    }
    if !Lonely(bs, t) {
      forall u | 0 <= u < |bs'| && !bs'[u].free ensures bs'[u].addr + HDR != ptr {
        var v := JoinedFrom(bs, t, u);
      }
    }
  }

  /** An allocated block after the joining was one before. */
  lemma JoinedFrom(bs: seq<Block>, t: int, u: int) returns (v: int)
    requires 0 <= t < |bs| && 0 <= u < |Joined(bs, t)| && !Joined(bs, t)[u].free
    ensures 0 <= v < |bs| && v != t && bs[v] == Joined(bs, t)[u]
  {
    hide MergeAt;
    var marked := bs[t := bs[t].(free := true)];
    var before := t > 0 && bs[t - 1].free;
    var left := if before then MergeAt(marked, t - 1) else marked;
    var at := if before then t - 1 else t;
    if before { MergeIs(marked, t - 1); }
    v := u;
    if at + 1 < |left| && left[at + 1].free { v := MergedFrom(left, at, u); }
    if before { v := MergedFrom(marked, t - 1, v); }
  }

  lemma MergedFrom(bs: seq<Block>, t: int, u: int) returns (v: int)
    requires 0 <= t < |bs| - 1 && 0 <= u < |MergeAt(bs, t)| && !MergeAt(bs, t)[u].free
    ensures 0 <= v < |bs| && v != t && v != t + 1 && bs[v] == MergeAt(bs, t)[u]
  {
    v := if u > t then u + 1 else u;
    assert u != t;
  }

  /** Once every block is free there is only one. */
  lemma AllFreeIsOne(bs: seq<Block>, lo: int, hi: int)
    requires WellFormed(bs, lo, hi) && forall i :: 0 <= i < |bs| ==> bs[i].free
    ensures bs == [Block(lo, hi - lo - HDR, true)]
  {
    assert 1 < |bs| ==> BothFree(bs, 1);
    TilesAt(bs, lo, hi, 0);
  }

  /** The style determines the block. */
  lemma ChoiceUnique(bs: seq<Block>, n: int, style: int, t: int, u: int)
    requires IsChoice(bs, n, style, t) && IsChoice(bs, n, style, u)
    ensures t == u
  {}

  /** The free block a request goes to: at least n bytes long, and the shortest such for style 0,
      the longest for style 1, the lowest for any other and among equals. */
  predicate Picks(bs: seq<Block>, n: int, style: int, t: int) {
    && 0 <= t < |bs| && bs[t].free && bs[t].len >= n
    && forall i :: 0 <= i < |bs| && bs[i].free && bs[i].len >= n ==>
         (if style == 0 then bs[t].len < bs[i].len || (bs[t].len == bs[i].len && t <= i)
          else if style == 1 then bs[t].len > bs[i].len || (bs[t].len == bs[i].len && t <= i)
          else t <= i)
  }

  /** Block t of the list handed out for n bytes, wasting fewer than 24; what is left of it is one
      free block behind it, and every other block is as it was. */
  predicate HandsOut(bs: seq<Block>, bs': seq<Block>, n: int, t: int) {
    && 0 <= t < |bs| <= |bs'| <= |bs| + 1
    && bs'[t].addr == bs[t].addr && !bs'[t].free && n <= bs'[t].len < n + 24
    && (|bs'| == |bs| ==> bs'[t].len == bs[t].len)
    && (|bs'| > |bs| ==> bs'[t + 1] == Block(bs[t].addr + 16 + bs'[t].len, bs[t].len - bs'[t].len - 16, true) && bs'[t + 1].len > 0)
    && (forall i :: 0 <= i < t ==> bs'[i] == bs[i])
    && (forall i :: t < i < |bs| ==> bs'[|bs'| - |bs| + i] == bs[i])
  }

  /** Lengths are multiples of eight, so rounding the size up leaves the same blocks large enough. */
  lemma FitsMeans(bs: seq<Block>, n: int, lo: int, hi: int)
    requires WellFormed(bs, lo, hi) && n > 0
    ensures forall i :: 0 <= i < |bs| ==> (Fits(bs[i], Rounded(n)) <==> bs[i].free && bs[i].len >= n)
  {
    hide Tiles, NoFreeNeighbours, FreeHasBytes;
    Rounded8(n);
    forall i | 0 <= i < |bs| ensures Fits(bs[i], Rounded(n)) <==> bs[i].free && bs[i].len >= n {
      TilesAt(bs, lo, hi, i);
    }
  }

  /** What a served request of a positive size comes to, in bytes. */
  lemma ServedMeans(bs: seq<Block>, bs': seq<Block>, n: int, style: int, r: int, lo: int, hi: int)
    requires WellFormed(bs, lo, hi) && n > 0 && Served(bs, bs', Rounded(n), style, r)
    ensures exists t :: Picks(bs, n, style, t) && r == bs[t].addr + 16 && HandsOut(bs, bs', n, t)
  {
    hide Tiles, NoFreeNeighbours, FreeHasBytes, AllocAt;
    var t :| ServedAt(bs, bs', Rounded(n), style, r, t);
    Rounded8(n);
    FitsMeans(bs, n, lo, hi);
    TilesAt(bs, lo, hi, t);
    assert Picks(bs, n, style, t) by { hide Rounded; }
    CutMeans(bs, Rounded(n), t);
  }

  lemma CutMeans(bs: seq<Block>, n: int, t: int)
    requires 0 <= t < |bs| && n <= bs[t].len
    ensures var r := AllocAt(bs, t, n);
            && |bs| <= |r| <= |bs| + 1 && r[t].addr == bs[t].addr && !r[t].free && n <= r[t].len <= n + 16
            && (|r| == |bs| ==> r[t].len == bs[t].len)
            && (|r| > |bs| ==> r[t + 1] == Block(bs[t].addr + 16 + r[t].len, bs[t].len - r[t].len - 16, true) && r[t + 1].len > 0)
            && (forall i :: 0 <= i < t ==> r[i] == bs[i])
            && (forall i :: t < i < |bs| ==> r[|r| - |bs| + i] == bs[i])
  {}

  // ----- the allocator

  function RoundUp(n: int, unit: int): int
    requires unit > 0
  {
    if n % unit != 0 then n + (unit - n % unit) else n
  }

  /** The remainder as C has it: with the sign of n. */
  function CMod(n: int, unit: int): int
    requires unit > 0
  {
    if n >= 0 then n % unit else -((-n) % unit)
  }

  /** The size as mem_alloc rounds it. */
  function Rounded(n: int): int { if CMod(n, 8) != 0 then n + (8 - CMod(n, 8)) else n }

  /** Rounded up to a multiple of eight; a negative size that is none becomes a larger one still. */
  lemma Rounded8(n: int)
    ensures Rounded(n) % 8 == 0
    ensures n >= 0 ==> n <= Rounded(n) < n + 8
    ensures n < 0 ==> n <= Rounded(n) < n + 16 && (Rounded(n) > 0 <==> n > -8)
  {
    var q := if n >= 0 then n / 8 else -((-n) / 8);
    assert n == 8 * q + CMod(n, 8);
    assert Rounded(n) == (if CMod(n, 8) != 0 then 8 * (q + 1) else 8 * q);
  }

  /** A region is a positive multiple of the page size, so what follows its first header is a multiple of eight. */
  lemma RoundedPage(n: int)
    requires n > 0
    ensures RoundUp(n, PAGE) >= PAGE && (RoundUp(n, PAGE) - HDR) % 8 == 0
  {
    var q := n / 4096;
    assert n == 4096 * q + n % 4096;
    var k := if n % 4096 != 0 then q + 1 else q;
    assert RoundUp(n, PAGE) == 4096 * k && k >= 1;
    assert RoundUp(n, PAGE) - HDR == 8 * (512 * k - 2);
  }

  lemma PageAligned(a: int)
    requires a % PAGE == 0
    ensures a % 8 == 0
  {
    assert a == 8 * (512 * (a / 4096));
  }

  lemma RoundUpIs(n: int)
    ensures RoundUp(n, PAGE) == if n % PAGE != 0 then n + (PAGE - n % PAGE) else n
  {}

  lemma OneBlock(lo: int, len: int)
    requires lo > NULL && lo % 8 == 0 && len > 0 && len % 8 == 0
    ensures WellFormed([Block(lo, len, true)], lo, lo + HDR + len)
  {
    assert [Block(lo, len, true)][1..] == [];
  }

  /** The headers in memory that stand for a block list. */
  ghost predicate Represents(bs: seq<Block>, size: map<int, int>, next: map<int, int>) {
    forall i :: 0 <= i < |bs| ==> Header(bs, size, next, i)
  }

  predicate Header(bs: seq<Block>, size: map<int, int>, next: map<int, int>, i: int)
    requires 0 <= i < |bs|
  {
    && bs[i].addr in size && size[bs[i].addr] == (if bs[i].free then bs[i].len else 0)
    && bs[i].addr in next && next[bs[i].addr] == NextOf(bs, i)
  }

  function NextOf(bs: seq<Block>, i: int): int
    requires 0 <= i < |bs|
  {
    if i + 1 < |bs| then bs[i + 1].addr else NULL
  }

  lemma HeaderDistinct(bs: seq<Block>, lo: int, hi: int, i: int, j: int)
    requires Tiles(bs, lo, hi) && 0 <= i < |bs| && 0 <= j < |bs| && i != j
    ensures bs[i].addr != bs[j].addr && (bs[j].addr < bs[i].addr || EndOf(bs[i]) <= bs[j].addr)
  {
    TilesAt(bs, lo, hi, i);
    TilesAt(bs, lo, hi, j);
    if i < j { AddressesRise(bs, lo, hi, i, j); } else { AddressesRise(bs, lo, hi, j, i); }
  }

  /** Splitting a block's header the way mem_alloc does it. */
  lemma AllocRepresents(bs: seq<Block>, t: int, n: int, lo: int, hi: int, size: map<int, int>, next: map<int, int>)
    requires WellFormed(bs, lo, hi) && Represents(bs, size, next) && 0 <= t < |bs| && Fits(bs[t], n) && bs[t].free
    requires n >= 0 || bs[t].len - n <= HDR
    ensures Header(bs, size, next, t)
    ensures var p := bs[t].addr;
            var q := p + n + HDR;
            if bs[t].len - n > HDR
            then Represents(AllocAt(bs, t, n), size[q := size[p] - (n + HDR)][p := 0], next[p := q][q := next[p]])
            else Represents(AllocAt(bs, t, n), size[p := 0], next)
  {
    hide Tiles;
    var p := bs[t].addr;
    var q := p + n + HDR;
    var r := AllocAt(bs, t, n);
    assert Header(bs, size, next, t);
    if bs[t].len - n > HDR {
      var size', next' := size[q := size[p] - (n + HDR)][p := 0], next[p := q][q := next[p]];
      forall i | 0 <= i < |r| ensures Header(r, size', next', i) {
        if i < t {
          assert r[i] == bs[i] && Header(bs, size, next, i);
          HeaderDistinct(bs, lo, hi, t, i);
          assert NextOf(r, i) == NextOf(bs, i);
        } else if i > t + 1 {
          assert r[i] == bs[i - 1] && Header(bs, size, next, i - 1);
          HeaderDistinct(bs, lo, hi, t, i - 1);
          assert NextOf(r, i) == NextOf(bs, i - 1);
        }
      }
    } else {
      var size' := size[p := 0];
      forall i | 0 <= i < |r| ensures Header(r, size', next, i) {
        assert Header(bs, size, next, i);
        if i != t { HeaderDistinct(bs, lo, hi, t, i); }
      }
    }
  }

  lemma MarkRepresents(bs: seq<Block>, t: int, lo: int, hi: int, size: map<int, int>, next: map<int, int>)
    requires Tiles(bs, lo, hi) && Represents(bs, size, next) && 0 <= t < |bs|
    ensures Represents(bs[t := bs[t].(free := true)], size[bs[t].addr := bs[t].len], next)
  {
    hide Tiles;
    var r, size' := bs[t := bs[t].(free := true)], size[bs[t].addr := bs[t].len];
    forall i | 0 <= i < |r| ensures Header(r, size', next, i) {
      assert Header(bs, size, next, i) && NextOf(r, i) == NextOf(bs, i);
      if i != t { HeaderDistinct(bs, lo, hi, t, i); }
    }
  }

  lemma MergeRepresents(bs: seq<Block>, t: int, lo: int, hi: int, size: map<int, int>, next: map<int, int>)
    requires Tiles(bs, lo, hi) && Represents(bs, size, next) && 0 <= t < |bs| - 1 && bs[t].free && bs[t + 1].free
    ensures Header(bs, size, next, t) && Header(bs, size, next, t + 1)
    ensures var (p, q) := (bs[t].addr, bs[t + 1].addr);
            Represents(MergeAt(bs, t), size[p := size[p] + (size[q] + HDR)], next[p := next[q]])
  {
    hide Tiles;
    var (p, q) := (bs[t].addr, bs[t + 1].addr);
    assert Header(bs, size, next, t) && Header(bs, size, next, t + 1);
    var r, size', next' := MergeAt(bs, t), size[p := size[p] + (size[q] + HDR)], next[p := next[q]];
    forall i | 0 <= i < |r| ensures Header(r, size', next', i) {
      var j := if i <= t then i else i + 1;
      assert Header(bs, size, next, j);
      if i != t {
        assert r[i] == bs[j] && NextOf(r, i) == NextOf(bs, j);
        HeaderDistinct(bs, lo, hi, t, j);
      } else {
        assert NextOf(r, t) == NextOf(bs, t + 1);
      }
    }
  }

  /** The header of an allocated block given back: its length is known from the next header,
      and the one before tells whether its block is free. */
  lemma MarkStep(bs: seq<Block>, t: int, lo: int, hi: int, size: map<int, int>, next: map<int, int>)
    requires WellFormed(bs, lo, hi) && Represents(bs, size, next) && 0 <= t < |bs| && !bs[t].free
    ensures var (p, marked) := (bs[t].addr, bs[t := bs[t].(free := true)]);
            && p in next && bs[t].len == (if next[p] != NULL then next[p] - p - HDR else hi - p - HDR)
            && Tiles(marked, lo, hi) && Represents(marked, size[p := bs[t].len], next)
            && (bs[t].len == 0 ==> size[p := bs[t].len] == size)
    ensures t > 0 ==> var (p, q) := (bs[t].addr, bs[t - 1].addr);
                      && q != p && q > NULL && q in size && q in next && next[q] == p && (size[q] != 0 <==> bs[t - 1].free)
  {
    hide Tiles, NoFreeNeighbours;
    TilesAt(bs, lo, hi, t);
    MarkTiles(bs, t, lo, hi, true);
    MarkRepresents(bs, t, lo, hi, size, next);
    assert Header(bs, size, next, t);
    if t + 1 < |bs| { TilesAt(bs, lo, hi, t + 1); }
    if t > 0 {
      TilesAt(bs, lo, hi, t - 1);
      assert Header(bs, size, next, t - 1);
    }
  }

  /** What stands behind the freed block, joined with the one before it or not. */
  predicate Behind(bs: seq<Block>, t: int, cur: seq<Block>, at: int)
    requires 0 <= t < |bs|
  {
    && 0 <= at < |cur| && cur[at].free && |cur| - at == |bs| - t
    && (t + 1 < |bs| ==> cur[at + 1] == bs[t + 1])
  }

  lemma MergeIs(bs: seq<Block>, t: int)
    requires 0 <= t < |bs| - 1
    ensures var r := MergeAt(bs, t);
            && |r| == |bs| - 1 && r[t].addr == bs[t].addr && r[t].free && (t + 2 < |bs| ==> r[t + 1] == bs[t + 2])
  {}

  lemma NextStep(bs: seq<Block>, t: int, cur: seq<Block>, at: int, lo: int, hi: int, size: map<int, int>, next: map<int, int>)
    requires WellFormed(bs, lo, hi) && 0 <= t < |bs| && Behind(bs, t, cur, at) && Tiles(cur, lo, hi) && Represents(cur, size, next)
    ensures var p := cur[at].addr;
            && p in size && p in next && (next[p] == NULL <==> at + 1 == |cur|)
            && (at + 1 < |cur| ==> && next[p] == cur[at + 1].addr && next[p] in size && next[p] in next
                                   && (size[next[p]] != 0 <==> cur[at + 1].free))
  {
    hide Tiles, NoFreeNeighbours;
    assert Header(cur, size, next, at);
    TilesAt(cur, lo, hi, at);
    if at + 1 < |cur| {
      TilesAt(cur, lo, hi, at + 1);
      assert Header(cur, size, next, at + 1);
    }
  }

  lemma LonelyIs(bs: seq<Block>, t: int)
    requires 0 <= t < |bs|
    ensures Lonely(bs, t) <==> bs[t].len == 0 && !(t > 0 && bs[t - 1].free) && !(t + 1 < |bs| && bs[t + 1].free)
  {}

  /** What mem_alloc does: `Overwrites` writes a header where other bytes are. */
  datatype Handout = NoSpace | Overwrites | At(ptr: int)

  class Region {
    var head: int                // _head_
    var once: bool
    var sumSize: int
    var error: int               // m_error
    var size: map<int, int>      // node.size by header address
    var next: map<int, int>      // node.next by header address
    ghost var blocks: seq<Block>

    ghost predicate Valid()
      reads this
    {
      if head == NULL then !once && blocks == []
      else once && WellFormed(blocks, head, head + sumSize) && Represents(blocks, size, next)
    }

    constructor ()
      ensures Valid() && head == NULL
    {
      head, once, sumSize, error := NULL, false, 0, 0;
      size, next, blocks := map[], map[], [];
    }

    /** Maps one region; `mapped` is where the kernel placed it. */
    method Init(sizeOfRegion: int, mapped: int) returns (r: int)
      requires Valid() && mapped > NULL && mapped % PAGE == 0
      modifies this
      ensures Valid()
      ensures r == 0 <==> sizeOfRegion > 0 && old(head) == NULL
      ensures r == 0 ==> head == mapped && sumSize == RoundUp(sizeOfRegion, PAGE) && error == 0
                         && blocks == [Block(mapped, sumSize - HDR, true)]
      ensures r != 0 ==> r == -1 && error == E_BAD_ARGS && blocks == old(blocks) && head == old(head)
    {
      hide Tiles, NoFreeNeighbours, RoundUp;
      error := 0;
      if sizeOfRegion <= 0 || once {
        error := E_BAD_ARGS;
        return -1;
      }
      RoundedPage(sizeOfRegion);
      var region := sizeOfRegion;
      if region % PAGE != 0 {
        region := region + (PAGE - region % PAGE);
      }
      RoundUpIs(sizeOfRegion);
      sumSize := region;
      size := size[mapped := sumSize - HDR];
      next := next[mapped := NULL];
      head, once := mapped, true;
      blocks := [Block(mapped, sumSize - HDR, true)];
      PageAligned(mapped);
      OneBlock(head, sumSize - HDR);
      assert Header(blocks, size, next, 0);
      return 0;
    }

    /** Hands out a block of at least n bytes, or fails exactly when no free block is large
        enough. Sizes that round to zero or below take every header for large enough, free or
        not; a negative one may have to stop at the write of a header over other bytes. */
    method Alloc(n: int, style: int) returns (r: Handout)
      requires Valid()
      modifies this
      ensures Valid() && head == old(head) && sumSize == old(sumSize)
      ensures r.NoSpace? <==> forall i :: 0 <= i < |old(blocks)| ==> !Fits(old(blocks)[i], Rounded(n))
      ensures n > 0 ==> (r.NoSpace? <==> forall i :: 0 <= i < |old(blocks)| && old(blocks)[i].free ==> old(blocks)[i].len < n)
      ensures r.Overwrites? <==> Overlaps(old(blocks), Rounded(n), style)
      ensures !r.At? ==> blocks == old(blocks)
      ensures r.At? ==> Served(old(blocks), blocks, Rounded(n), style, r.ptr)
      ensures r.At? ==> old(blocks) != [] && (!IsAllocated(old(blocks), r.ptr) <==> GivesFresh(old(blocks), Rounded(n), style))
      ensures r.At? ==> IsAllocated(blocks, r.ptr)
      ensures error == if r.NoSpace? then E_NO_SPACE else 0
    {
      hide Tiles, NoFreeNeighbours, IsChoice, AllocAt, FreeHasBytes, GivesFresh;
      error := 0;
      if head != NULL && n > 0 { FitsMeans(blocks, n, head, head + sumSize); }
      if head == NULL {
        NothingChosen(blocks, Rounded(n), style);
        error := E_NO_SPACE;
        return NoSpace;
      }
      var bytes := n;
      if CMod(bytes, 8) != 0 {
        bytes := bytes + (8 - CMod(bytes, 8));
      }
      Rounded8(n);
      var target: int;
      ghost var t: int;
      target, t := FindTarget(bytes, style);
      if target == NULL {
        NothingChosen(blocks, bytes, style);
        error := E_NO_SPACE;
        return NoSpace;
      }
      Chosen(blocks, bytes, style, t);
      TargetIs(t, bytes, style);
      if bytes < 0 && size[target] - bytes > HDR {
        return Overwrites;
      }
      Positive();
      Carve(target, bytes, t);
      assert ServedAt(old(blocks), blocks, bytes, style, target + HDR, t);
      ServedFresh(old(blocks), blocks, bytes, style, target + HDR, head, head + sumSize);
      return At(target + HDR);
    }

    lemma TargetIs(t: int, bytes: int, style: int)
      requires Valid() && head != NULL && IsChoice(blocks, bytes, style, t) && 0 <= t < |blocks|
      ensures blocks[t].addr in size && size[blocks[t].addr] == SizeOf(blocks[t])
      ensures Overlaps(blocks, bytes, style) <==> bytes < 0 && SizeOf(blocks[t]) - bytes > HDR
    {
      hide Tiles, NoFreeNeighbours, IsChoice;
      Step(t);
      forall u | IsChoice(blocks, bytes, style, u) ensures u == t { ChoiceUnique(blocks, bytes, style, t, u); }
    }

    /** Walks the headers for the block the style picks; NULL when none fits. */
    method FindTarget(bytes: int, style: int) returns (target: int, ghost t: int)
      requires Valid() && head != NULL
      ensures target == NULL <==> forall i :: 0 <= i < |blocks| ==> !Fits(blocks[i], bytes)
      ensures target != NULL ==> IsChoice(blocks, bytes, style, t) && target == blocks[t].addr
    {
      hide Tiles, IsChoiceBelow, NoFreeNeighbours, BothFree;
      var node := head;
      ghost var i := 0;
      target, t := NULL, 0;
      TilesAt(blocks, head, head + sumSize, 0);
      Positive();
      while node != NULL
        invariant 0 <= i <= |blocks| && node == (if i < |blocks| then blocks[i].addr else NULL) && target == NULL
        invariant forall k :: 0 <= k < i ==> !Fits(blocks[k], bytes)
        decreases |blocks| - i
      {
        Step(i);
        i := i + 1;
        if bytes <= size[node] {
          target, t := node, i - 1;
          node := next[node];
          break;
        }
        node := next[node];
      }
      if target == NULL {
        return;
      }
      FirstChoice(blocks, bytes, style, t);
      if style == M_BESTFIT {
        while node != NULL
          invariant 0 <= i <= |blocks| && node == (if i < |blocks| then blocks[i].addr else NULL)
          invariant target != NULL && IsChoiceBelow(blocks, bytes, style, t, i) && 0 <= t < |blocks| && target == blocks[t].addr
          decreases |blocks| - i
        {
          Step(i);
          ChoiceBlock(blocks, bytes, style, t, i);
          Step(t);
          NextChoice(blocks, bytes, style, t, i);
          if bytes <= size[node] && size[node] < size[target] {
            target, t := node, i;
          }
          node := next[node];
          i := i + 1;
        }
      } else if style == M_WORSTFIT {
        while node != NULL
          invariant 0 <= i <= |blocks| && node == (if i < |blocks| then blocks[i].addr else NULL)
          invariant target != NULL && IsChoiceBelow(blocks, bytes, style, t, i) && 0 <= t < |blocks| && target == blocks[t].addr
          decreases |blocks| - i
        {
          Step(i);
          ChoiceBlock(blocks, bytes, style, t, i);
          Step(t);
          NextChoice(blocks, bytes, style, t, i);
          if size[node] > size[target] {
            target, t := node, i;
          }
          node := next[node];
          i := i + 1;
        }
      }
    }

    lemma Positive()
      requires Valid()
      ensures forall k :: 0 <= k < |blocks| ==> blocks[k].addr > NULL && blocks[k].len >= 0
    {
      forall k | 0 <= k < |blocks| ensures blocks[k].addr > NULL && blocks[k].len >= 0 {
        TilesAt(blocks, head, head + sumSize, k);
      }
    }

    /** What the i-th header holds. */
    lemma Step(i: int)
      requires Valid() && head != NULL && 0 <= i < |blocks|
      ensures Header(blocks, size, next, i) && blocks[i].addr > NULL && blocks[i].len >= 0
      ensures i + 1 < |blocks| ==> blocks[i + 1].addr > NULL
    {
      TilesAt(blocks, head, head + sumSize, i);
      if i + 1 < |blocks| {
        TilesAt(blocks, head, head + sumSize, i + 1);
      }
    }

    method Carve(target: int, bytes: int, ghost t: int)
      requires Valid() && head != NULL && bytes % 8 == 0
      requires 0 <= t < |blocks| && Fits(blocks[t], bytes) && target == blocks[t].addr
      requires bytes >= 0 || SizeOf(blocks[t]) - bytes <= HDR
      modifies `size, `next, `blocks
      ensures Valid() && blocks == if old(blocks)[t].free then AllocAt(old(blocks), t, bytes) else old(blocks)
    {
      hide Tiles, AllocAt, NoFreeNeighbours;
      if blocks[t].free {
        AllocKeeps(blocks, t, bytes, head, head + sumSize);
        AllocRepresents(blocks, t, bytes, head, head + sumSize, size, next);
      } else {
        Step(t);
        assert size[target := 0] == size;
      }
      if size[target] - bytes > HDR {
        var originalNext := next[target];
        next := next[target := target + bytes + HDR];
        size := size[next[target] := size[target] - (bytes + HDR)];
        next := next[next[target] := originalNext];
      }
      size := size[target := 0];
      if blocks[t].free {
        blocks := AllocAt(blocks, t, bytes);
      }
    }

    /** Takes a block back and joins it with its free neighbours; refuses anything
        that is not the start of an allocated block.  `word` is what memory holds in
        front of a pointer that no header lies behind. */
    method Free(ptr: int, word: int) returns (r: int)
      requires Valid()
      modifies this
      ensures Valid() && head == old(head) && sumSize == old(sumSize)
      ensures r == 0 <==> ptr == NULL || IsAllocated(old(blocks), ptr)
      ensures r == 0 && ptr != NULL ==> error == 0 && Released(old(blocks), blocks, ptr)
      ensures r == 0 && ptr == NULL ==> blocks == old(blocks)
      ensures r != 0 ==> r == -1 && error == E_BAD_POINTER && blocks == old(blocks)
    {
      hide Tiles, FreeAt;
      error := 0;
      if ptr == NULL { return 0; }
      var hptr := ptr - HDR;
      if head == NULL || (if hptr in size then size[hptr] else word) != 0 {
        if head != NULL { NotAllocated(ptr); }
        error := E_BAD_POINTER;
        return -1;
      }
      var pre, late := NULL, head;
      ghost var i := 0;
      TilesAt(blocks, head, head + sumSize, 0);
      Positive();
      while late != NULL
        modifies {}
        invariant 0 <= i <= |blocks| && late == (if i < |blocks| then blocks[i].addr else NULL)
        invariant pre == (if i > 0 then blocks[i - 1].addr else NULL)
        invariant forall k :: 0 <= k < i ==> blocks[k].addr + HDR != ptr
        decreases |blocks| - i
      {
        Step(i);
        if late + HDR == ptr { break; }
        pre := late;
        late := next[late];
        i := i + 1;
      }
      if late != NULL {
        Step(i);
        GiveBack(pre, late, i);
        assert ReleasedAt(old(blocks), blocks, ptr, i);
        return 0;
      }
      error := E_BAD_POINTER;
      return -1;
    }

    lemma NotAllocated(ptr: int)
      requires Valid() && head != NULL && (ptr - HDR in size ==> size[ptr - HDR] != 0)
      ensures !IsAllocated(blocks, ptr)
    {
      forall t | 0 <= t < |blocks| && !blocks[t].free ensures blocks[t].addr + HDR != ptr {
        Step(t);
      }
    }

    method GiveBack(pre: int, block: int, ghost t: int)
      requires Valid() && head != NULL && 0 <= t < |blocks| && !blocks[t].free && block == blocks[t].addr
      requires pre == if t > 0 then blocks[t - 1].addr else NULL
      modifies `size, `next, `blocks
      ensures Valid() && blocks == FreeAt(old(blocks), t)
    {
      hide Tiles, Represents, FreeHasBytes, NoFreeNeighbours, MergeAt, Lonely;
      ghost var lo, hi, bs := head, head + sumSize, blocks;
      FreeKeeps(bs, t, lo, hi);
      MarkStep(bs, t, lo, hi, size, next);
      var late := block;
      if next[late] != NULL {
        size := size[late := next[late] - late - HDR];
      } else {
        size := size[late := head + sumSize - late - HDR];
      }
      ghost var cur, at := bs[t := bs[t].(free := true)], t;
      if pre != NULL && size[pre] != 0 {
        MergeRepresents(cur, t - 1, lo, hi, size, next);
        MergeTiles(cur, t - 1, lo, hi);
        MergeIs(cur, t - 1);
        size := size[pre := size[pre] + (size[late] + HDR)];
        next := next[pre := next[late]];
        late := pre;
        cur, at := MergeAt(cur, t - 1), t - 1;
      }
      NextStep(bs, t, cur, at, lo, hi, size, next);
      if next[late] != NULL && size[next[late]] != 0 {
        MergeRepresents(cur, at, lo, hi, size, next);
        size := size[late := size[late] + (size[next[late]] + HDR)];
        next := next[late := next[next[late]]];
        cur := MergeAt(cur, at);
      }
      LonelyIs(bs, t);
      blocks := FreeAt(bs, t);
    }
  }
}
