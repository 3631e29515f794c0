/** Sorted circular lists and tilings, the two shapes the user-level allocator maintains. */
module FreeList {

  // ----- sorted sequences

  ghost predicate Sorted(s: seq<int>) { forall i, j :: 0 <= i < j < |s| ==> s[i] < s[j] }

  function InsertAfter(s: seq<int>, t: nat, x: int): (r: seq<int>)
    requires t < |s|
    ensures |r| == |s| + 1
  {
    s[..t + 1] + [x] + s[t + 1..]
  }

  function RemoveAt(s: seq<int>, t: nat): (r: seq<int>)
    requires t < |s|
    ensures |r| == |s| - 1
  {
    s[..t] + s[t + 1..]
  }

  /** x belongs between s[t] and its successor. */
  ghost predicate IsPlace(s: seq<int>, x: int, t: int) {
    0 <= t < |s| && s[t] < x && (t + 1 < |s| ==> x < s[t + 1])
  }

  lemma InsertAt(s: seq<int>, t: nat, x: int, i: nat)
    requires t < |s| && i <= |s|
    ensures InsertAfter(s, t, x)[i] == if i <= t then s[i] else if i == t + 1 then x else s[i - 1]
  {}

  lemma RemovedAt(s: seq<int>, t: nat, i: nat)
    requires t < |s| && i < |s| - 1
    ensures RemoveAt(s, t)[i] == if i < t then s[i] else s[i + 1]
  {}

  lemma InsertSorted(s: seq<int>, t: nat, x: int)
    requires Sorted(s) && IsPlace(s, x, t)
    ensures Sorted(InsertAfter(s, t, x))
    ensures forall b :: b in InsertAfter(s, t, x) <==> b in s || b == x
  {
    var r := InsertAfter(s, t, x);
    forall b | b in s ensures b in r {
      var i :| 0 <= i < |s| && s[i] == b;
      assert r[if i <= t then i else i + 1] == b;
    }
    assert r[t + 1] == x;
  }

  lemma RemoveSorted(s: seq<int>, t: nat)
    requires Sorted(s) && t < |s|
    ensures Sorted(RemoveAt(s, t))
    ensures forall b :: b in RemoveAt(s, t) <==> b in s && b != s[t]
  {
    var r := RemoveAt(s, t);
    forall b | b in s && b != s[t] ensures b in r {
      var i :| 0 <= i < |s| && s[i] == b;
      assert r[if i < t then i else i - 1] == b;
    }
  }

  // ----- circular links

  function Succ(i: int, k: int): int { if i + 1 == k then 0 else i + 1 }

  predicate Link(s: seq<int>, ptr: map<int, int>, i: int)
    requires 0 <= i < |s|
  {
    s[i] in ptr && ptr[s[i]] == s[Succ(i, |s|)]
  }

  ghost predicate Circular(s: seq<int>, ptr: map<int, int>) {
    forall i :: 0 <= i < |s| ==> Link(s, ptr, i)
  }

  /** Linking x behind s[t] the way free does it. */
  lemma InsertCircular(s: seq<int>, ptr: map<int, int>, t: nat, x: int)
    requires Sorted(s) && Circular(s, ptr) && IsPlace(s, x, t)
    ensures s[t] in ptr && Circular(InsertAfter(s, t, x), ptr[x := ptr[s[t]]][s[t] := x])
  {
    assert Link(s, ptr, t);
    var r, q, k := InsertAfter(s, t, x), ptr[x := ptr[s[t]]][s[t] := x], |s|;
    forall i | 0 <= i < k + 1 ensures Link(r, q, i) {
      InsertAt(s, t, x, i);
      InsertAt(s, t, x, Succ(i, k + 1));
      if i < t {
        assert Link(s, ptr, i) && s[i] < s[t];
      } else if i > t + 1 {
        assert Link(s, ptr, i - 1) && s[t] < s[i - 1] && s[t + 1] <= s[i - 1];
      }
    }
  }

  /** Unlinking s[t] by letting its predecessor point past it. */
  lemma RemoveCircular(s: seq<int>, ptr: map<int, int>, t: nat)
    requires Sorted(s) && Circular(s, ptr) && 0 < t < |s|
    ensures s[t] in ptr && Circular(RemoveAt(s, t), ptr[s[t - 1] := ptr[s[t]]])
  {
    assert Link(s, ptr, t);
    var r, q, k := RemoveAt(s, t), ptr[s[t - 1] := ptr[s[t]]], |s|;
    forall i | 0 <= i < k - 1 ensures Link(r, q, i) {
      RemovedAt(s, t, i);
      RemovedAt(s, t, Succ(i, k - 1));
      if i < t - 1 {
        assert Link(s, ptr, i) && s[i] < s[t - 1];
      } else if i >= t {
        assert Link(s, ptr, i + 1) && s[t - 1] < s[i + 1];
      }
    }
  }

  // ----- tilings: every unit lies in exactly one block

  ghost predicate In(blocks: map<int, int>, b: int, x: int) {
    b in blocks && b <= x < b + blocks[b]
  }

  ghost predicate Tiles(blocks: map<int, int>, head: map<int, int>) {
    && (forall b :: b in blocks ==> blocks[b] > 0)
    && (forall b, x :: In(blocks, b, x) ==> x in head && head[x] == b)
    && (forall x :: x in head ==> In(blocks, head[x], x))
  }

  lemma TilesApart(blocks: map<int, int>, head: map<int, int>, a: int, b: int)
    requires Tiles(blocks, head) && a in blocks && b in blocks && a < b
    ensures a + blocks[a] <= b
  {
    assert In(blocks, b, b);
    assert !In(blocks, a, b);
  }

  function Rehead(head: map<int, int>, lo: int, hi: int, b: int): (r: map<int, int>)
    ensures r.Keys == head.Keys
  {
    map x | x in head :: if lo <= x < hi then b else head[x]
  }

  /** Two touching blocks made one. */
  lemma TilesJoin(blocks: map<int, int>, head: map<int, int>, p: int, q: int)
    requires Tiles(blocks, head) && p in blocks && q in blocks && p + blocks[p] == q
    ensures Tiles((blocks - {q})[p := blocks[p] + blocks[q]], Rehead(head, q, q + blocks[q], p))
  {
    var bs, hd := (blocks - {q})[p := blocks[p] + blocks[q]], Rehead(head, q, q + blocks[q], p);
    forall b, x | In(bs, b, x) ensures x in hd && hd[x] == b {
      assert In(blocks, b, x) || In(blocks, q, x);
      assert In(blocks, q, x) ==> head[x] == q;
    }
    forall x | x in hd ensures In(bs, hd[x], x) {
      assert In(blocks, head[x], x);
      assert In(blocks, q, x) ==> head[x] == q;
    }
  }

  /** A block cut in two at q. */
  lemma TilesCut(blocks: map<int, int>, head: map<int, int>, p: int, q: int)
    requires Tiles(blocks, head) && p in blocks && p < q < p + blocks[p]
    ensures q !in blocks
    ensures Tiles(blocks[p := q - p][q := p + blocks[p] - q], Rehead(head, q, p + blocks[p], q))
  {
    var e := p + blocks[p];
    var bs, hd := blocks[p := q - p][q := e - q], Rehead(head, q, e, q);
    assert In(blocks, p, q) && (q in blocks ==> In(blocks, q, q));
    forall b, x | In(bs, b, x) ensures x in hd && hd[x] == b {
      assert In(blocks, b, x) || In(blocks, p, x);
      assert In(blocks, p, x) ==> head[x] == p;
    }
    forall x | x in hd ensures In(bs, hd[x], x) {
      assert In(blocks, head[x], x);
      assert In(blocks, p, x) ==> head[x] == p;
    }
  }

  function AddHead(head: map<int, int>, b: int, n: int): (r: map<int, int>)
    ensures forall x :: x in r <==> x in head || b <= x < b + n
    ensures forall x :: x in r ==> r[x] == if b <= x < b + n then b else head[x]
  {
    if n <= 0 then head else AddHead(head, b, n - 1)[b + n - 1 := b]
  }

  /** A new block above everything. */
  lemma TilesAdd(blocks: map<int, int>, head: map<int, int>, b: int, n: int)
    requires Tiles(blocks, head) && n > 0 && b !in blocks && forall x :: x in head ==> x < b
    ensures Tiles(blocks[b := n], AddHead(head, b, n))
  {
    var bs, hd := blocks[b := n], AddHead(head, b, n);
    forall c, x | In(bs, c, x) ensures x in hd && hd[x] == c {
      assert c == b || In(blocks, c, x);
    }
    forall x | x in hd ensures In(bs, hd[x], x) {}
  }
}
