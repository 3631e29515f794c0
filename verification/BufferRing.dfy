/** The doubly linked ring of cache buffers, in order of last use behind its head. */
module BufferRing {

  const NBUF := 10

  /** The list head sits behind the last buffer. */
  const HEAD := NBUF

  function Around(ring: seq<nat>): seq<nat> { [HEAD] + ring + [HEAD] }

  predicate Hop(e: seq<nat>, next: seq<nat>, prev: seq<nat>, i: nat)
    requires i + 1 < |e| && |next| == |prev| == NBUF + 1
  {
    && e[i] <= NBUF && e[i + 1] <= NBUF
    && next[e[i]] == e[i + 1] && prev[e[i + 1]] == e[i]
  }

  predicate Distinct(ring: seq<nat>) {
    && (forall i :: 0 <= i < |ring| ==> ring[i] < NBUF)
    && (forall i, j :: 0 <= i < j < |ring| ==> ring[i] != ring[j])
  }

  /** Following next from the head visits the ring in order and comes back, and prev undoes next. */
  ghost predicate Linked(ring: seq<nat>, next: seq<nat>, prev: seq<nat>) {
    && |next| == |prev| == NBUF + 1 && Distinct(ring)
    && (forall i :: 0 <= i <= |ring| ==> Hop(Around(ring), next, prev, i))
  }

  /** Every buffer is on the ring, once. */
  ghost predicate Covers(ring: seq<nat>) { Distinct(ring) && forall b :: 0 <= b < NBUF ==> b in ring }

  function Without(ring: seq<nat>, i: nat): (r: seq<nat>)
    requires i < |ring|
    ensures |r| == |ring| - 1
  {
    ring[..i] + ring[i + 1..]
  }

  function ToFront(ring: seq<nat>, i: nat): (r: seq<nat>)
    requires i < |ring|
  {
    [ring[i]] + Without(ring, i)
  }

  lemma LinkedAt(ring: seq<nat>, next: seq<nat>, prev: seq<nat>, i: nat)
    requires Linked(ring, next, prev) && i <= |ring|
    ensures Hop(Around(ring), next, prev, i)
  {}

  lemma WithoutDistinct(ring: seq<nat>, i: nat)
    requires Distinct(ring) && i < |ring|
    ensures Distinct(Without(ring, i)) && ring[i] !in Without(ring, i)
    ensures forall b :: b in Without(ring, i) <==> b in ring && b != ring[i]
  {
    var r := Without(ring, i);
    assert forall k :: 0 <= k < |r| ==> r[k] == if k < i then ring[k] else ring[k + 1];
    forall b | b in ring && b != ring[i] ensures b in r {
      var k :| 0 <= k < |ring| && ring[k] == b;
      assert r[if k < i then k else k - 1] == b;
    }
  }

  /** The two assignments that take a buffer off the ring. */
  lemma UnlinkKeeps(ring: seq<nat>, next: seq<nat>, prev: seq<nat>, i: nat)
    requires Linked(ring, next, prev) && i < |ring|
    ensures var b := ring[i];
            && next[b] <= NBUF && prev[b] <= NBUF
            && Linked(Without(ring, i), next[prev[b] := next[b]], prev[next[b] := prev[b]])
  {
    WithoutDistinct(ring, i);
    LinkedAt(ring, next, prev, i);
    LinkedAt(ring, next, prev, i + 1);
    var (b, e, r) := (ring[i], Around(ring), Without(ring, i));
    assert e[i] == prev[b] && e[i + 2] == next[b];
    var (n, p) := (next[prev[b] := next[b]], prev[next[b] := prev[b]]);
    forall k | 0 <= k <= |r| ensures Hop(Around(r), n, p, k) {
      HopWithout(ring, next, prev, i, k);
    }
  }

  lemma AroundDistinct(ring: seq<nat>, i: nat, j: nat)
    requires Distinct(ring) && i < j <= |ring| + 1
    ensures j <= |ring| ==> Around(ring)[i] != Around(ring)[j]
    ensures i > 0 ==> Around(ring)[i] != Around(ring)[j]
  {}

  lemma HopWithout(ring: seq<nat>, next: seq<nat>, prev: seq<nat>, i: nat, k: nat)
    requires Linked(ring, next, prev) && i < |ring| && k < |ring|
    requires Hop(Around(ring), next, prev, i) && Hop(Around(ring), next, prev, i + 1)
    ensures var (b, e) := (ring[i], Around(ring));
            && e[i + 1] == b && e[i] == prev[b] && e[i + 2] == next[b]
            && Hop(Around(Without(ring, i)), next[prev[b] := next[b]], prev[next[b] := prev[b]], k)
  {
    var (b, e, f) := (ring[i], Around(ring), Around(Without(ring, i)));
    assert f[k] == if k <= i then e[k] else e[k + 1];
    assert f[k + 1] == if k < i then e[k + 1] else e[k + 2];
    if k < i {
      LinkedAt(ring, next, prev, k);
      AroundDistinct(ring, k, i);
      AroundDistinct(ring, k + 1, i + 2);
    } else if k > i {
      LinkedAt(ring, next, prev, k + 1);
      AroundDistinct(ring, i, k + 1);
      AroundDistinct(ring, i + 2, k + 2);
    }
  }

  /** The four assignments that put a buffer right behind the head. */
  lemma PushKeeps(ring: seq<nat>, next: seq<nat>, prev: seq<nat>, b: nat)
    requires Linked(ring, next, prev) && b < NBUF && b !in ring
    ensures next[HEAD] <= NBUF
    ensures Linked([b] + ring, next[b := next[HEAD]][HEAD := b], prev[b := HEAD][next[HEAD] := b])
  {
    LinkedAt(ring, next, prev, 0);
    var (e, f) := (Around(ring), Around([b] + ring));
    var (n, p) := (next[b := next[HEAD]][HEAD := b], prev[b := HEAD][next[HEAD] := b]);
    forall k | 0 <= k <= |ring| + 1 ensures Hop(f, n, p, k) {
      if k > 1 {
        LinkedAt(ring, next, prev, k - 1);
        assert f[k] == e[k - 1] && f[k + 1] == e[k];
        AroundDistinct(ring, 1, k);
        assert e[k - 1] == ring[k - 2];
      }
    }
  }

  // ----- the order of last use

  /** The ring is sorted by the time each buffer was last put in front, the latest first. */
  ghost predicate Ordered(ring: seq<nat>, stamp: seq<int>) {
    |stamp| == NBUF && Distinct(ring) && forall i, j :: 0 <= i < j < |ring| ==> stamp[ring[i]] > stamp[ring[j]]
  }

  lemma FrontOrdered(ring: seq<nat>, stamp: seq<int>, i: nat, now: int)
    requires Ordered(ring, stamp) && i < |ring| && forall b :: 0 <= b < NBUF ==> stamp[b] < now
    ensures Ordered(ToFront(ring, i), stamp[ring[i] := now])
  {
    WithoutDistinct(ring, i);
    var r := Without(ring, i);
    assert forall k :: 0 <= k < |r| ==> r[k] == if k < i then ring[k] else ring[k + 1];
  }
}
