/** The buffer cache and the disk queue as the kernel holds them: linked lists over the buffers. */
module BufferCache {
  import opened Basics
  import opened BufferRing
  import opened BufferSpec

  // ----- the driver's queue, linked through qnext

  /** No buffer. */
  const NIL := NBUF

  function Nth(q: seq<nat>, i: nat): nat { if i < |q| then q[i] else NIL }

  predicate Chain(q: seq<nat>, qnext: seq<nat>, i: nat)
    requires i < |q|
  {
    q[i] < |qnext| && qnext[q[i]] == Nth(q, i + 1)
  }

  /** From the first buffer on, qnext spells the queue. */
  ghost predicate Chained(q: seq<nat>, first: nat, qnext: seq<nat>) {
    |qnext| == NBUF && Distinct(q) && first == Nth(q, 0) && forall i :: 0 <= i < |q| ==> Chain(q, qnext, i)
  }

  lemma ChainAt(q: seq<nat>, first: nat, qnext: seq<nat>, i: nat)
    requires Chained(q, first, qnext) && i < |q|
    ensures Chain(q, qnext, i) && q[i] < NBUF
  {}

  lemma ClearChained(q: seq<nat>, first: nat, qnext: seq<nat>, b: nat)
    requires Chained(q, first, qnext) && b < NBUF && b !in q
    ensures |qnext| == NBUF && Chained(q, first, qnext[b := NIL])
  {
    var n := qnext[b := NIL];
    forall i | 0 <= i < |q| ensures Chain(q, n, i) {
      ChainAt(q, first, qnext, i);
    }
  }

  lemma AppendChained(q: seq<nat>, first: nat, qnext: seq<nat>, b: nat)
    requires Chained(q, first, qnext) && b < NBUF && b !in q && qnext[b] == NIL
    ensures first == NIL <==> q == []
    ensures q == [] ==> Chained(q + [b], b, qnext)
    ensures q != [] ==> q[|q| - 1] < NBUF && Chained(q + [b], first, qnext[q[|q| - 1] := b])
  {
    if q == [] {
      assert q + [b] == [b];
    } else {
      ChainAt(q, first, qnext, 0);
      var n := qnext[q[|q| - 1] := b];
      forall i | 0 <= i < |q| + 1 ensures Chain(q + [b], n, i) {
        if i < |q| { ChainAt(q, first, qnext, i); }
      }
    }
  }

  lemma TailChained(q: seq<nat>, first: nat, qnext: seq<nat>)
    requires Chained(q, first, qnext) && q != []
    ensures first < NBUF && Chained(q[1..], qnext[first], qnext)
  {
    ChainAt(q, first, qnext, 0);
    forall i | 0 <= i < |q| - 1 ensures Chain(q[1..], qnext, i) {
      ChainAt(q, first, qnext, i + 1);
    }
  }

  class BCache {
    const bufs: array<Buf>
    const next: array<nat>
    const prev: array<nat>
    const qnext: array<nat>
    var idequeue: nat
    ghost var queue: seq<nat>
    var disk: map<Id, Bytes>
    ghost var ring: seq<nat>
    ghost var stamp: seq<int>
    ghost var clock: int

    ghost function Now(): Cache
      reads this, bufs
    {
      Cache(bufs[..], ring, disk, queue)
    }

    /** The links spell the ring, and the ring is in order of release. */
    ghost predicate Valid()
      reads this, bufs, next, prev, qnext
    {
      && next != prev && next != qnext && qnext != prev && Chained(queue, idequeue, qnext[..])
      && Inv(Now()) && Linked(ring, next[..], prev[..]) && Ordered(ring, stamp)
      && forall b :: 0 <= b < NBUF ==> stamp[b] < clock
    }

    /** binit: every buffer in turn is put in front. */
    constructor (image: map<Id, Bytes>)
      ensures Valid() && Now() == Fresh(image)
    {
      bufs := new Buf[NBUF](_ => Buf(Id(NODEV, 0), false, false, false, []));
      next := new nat[NBUF + 1](_ => 0);
      prev := new nat[NBUF + 1](_ => 0);
      qnext := new nat[NBUF](_ => NIL);
      disk, idequeue, queue, ring, stamp, clock := image, NIL, [], [], seq(NBUF, b => b), NBUF;
      new;
      prev[HEAD] := HEAD;
      next[HEAD] := HEAD;
      var b := 0;
      while b < NBUF
        invariant 0 <= b <= NBUF && Linked(ring, next[..], prev[..]) && ring == seq(b, i => b - 1 - i)
        invariant bufs[..] == Fresh(image).bufs
        modifies next, prev, `ring
      {
        PushFront(b, ring);
        ring := [b] + ring;
        b := b + 1;
      }
      FreshInv(image);
    }

    /** The four assignments that put a buffer right behind the head. */
    method PushFront(b: nat, ghost r: seq<nat>)
      requires next != prev && Linked(r, next[..], prev[..]) && b < NBUF && b !in r
      modifies next, prev
      ensures Linked([b] + r, next[..], prev[..])
    {
      PushKeeps(r, next[..], prev[..], b);
      next[b] := next[HEAD];
      prev[b] := HEAD;
      prev[next[HEAD]] := b;
      next[HEAD] := b;
    }

    /** Walks the ring forward for the sector. */
    method Search(id: Id) returns (b: nat)
      requires Valid()
      ensures b <= NBUF
      ensures Find(bufs[..], ring, id, 0) == if b == HEAD then None else Some(b)
    {
      b := next[HEAD];
      LinkedAt(ring, next[..], prev[..], 0);
      ghost var k := 0;
      while b != HEAD && bufs[b].id != id
        invariant 0 <= k <= |ring| && b == Around(ring)[k + 1]
        invariant Find(bufs[..], ring, id, 0) == Find(bufs[..], ring, id, k)
        decreases |ring| - k
      {
        LinkedAt(ring, next[..], prev[..], k + 1);
        b := next[b];
        k := k + 1;
      }
    }

    /** Walks the ring backward for an idle buffer. */
    method SearchIdle() returns (b: nat)
      requires Valid()
      ensures b <= NBUF
      ensures LastIdle(bufs[..], ring, |ring|) == if b == HEAD then None else Some(b)
    {
      b := prev[HEAD];
      LinkedAt(ring, next[..], prev[..], |ring|);
      ghost var k := |ring|;
      while b != HEAD && bufs[b].busy
        invariant 0 <= k <= |ring| && b == Around(ring)[k]
        invariant LastIdle(bufs[..], ring, |ring|) == LastIdle(bufs[..], ring, k)
        decreases k
      {
        LinkedAt(ring, next[..], prev[..], k - 1);
        b := prev[b];
        k := k - 1;
      }
    }

    /** bget up to its return, its sleep, or its panic: an idle buffer of the sector, or else the
        idle one released longest ago; a wait exactly for the busy buffer of the sector. */
    method Bget(id: Id) returns (out: Outcome)
      requires Valid() && Real(id)
      modifies bufs
      ensures Valid() && (Now(), out) == Get(old(Now()), id)
      ensures Answers(old(bufs[..]), stamp, id, out)
      ensures bufs[..] == if out.Got? then old(bufs[..])[out.b := Handed(old(bufs[..])[out.b], id)] else old(bufs[..])
    {
      hide Answers, Inv;
      GotIsMine(Now(), id);
      GetExactly(Now(), id, stamp);
      var b := Search(id);
      if b != HEAD {
        if !bufs[b].busy {
          bufs[b] := bufs[b].(busy := true);
          out := Got(b);
        } else {
          out := Busy(b);
        }
        return;
      }
      b := SearchIdle();
      if b == HEAD {
        return NoBuffers;
      }
      bufs[b] := Buf(id, true, false, false, bufs[b].data);
      out := Got(b);
    }

    /** iderw up to its sleep: the buffer goes to the end of the queue. It panics if the caller
        does not hold the buffer or there is nothing to transfer. */
    method Iderw(b: nat) returns (ok: bool)
      requires b < bufs.Length && b < NBUF && b !in queue && Chained(queue, idequeue, qnext[..]) && qnext != next && qnext != prev
      modifies qnext, `idequeue, `queue
      ensures ok <==> bufs[b].busy && (bufs[b].dirty || !bufs[b].valid)
      ensures Chained(queue, idequeue, qnext[..])
      ensures Now() == if ok then Submit(old(Now()), b) else old(Now())
      ensures queue == if ok then old(queue) + [b] else old(queue)
    {
      hide Chained, Distinct;
      if !bufs[b].busy || (bufs[b].valid && !bufs[b].dirty) {
        return false;
      }
      ClearChained(queue, idequeue, qnext[..], b);
      qnext[b] := NIL;
      AppendChained(queue, idequeue, qnext[..], b);
      if idequeue == NIL {
        idequeue := b;
      } else {
        var p := Last();
        ghost var links := qnext[..];
        qnext[p] := b;
        assert qnext[..] == links[p := b];
      }
      queue := queue + [b];
      ok := true;
    }

    /** Walks the queue to its last buffer. */
    method Last() returns (p: nat)
      requires Chained(queue, idequeue, qnext[..]) && queue != []
      ensures p == queue[|queue| - 1] < NBUF
    {
      p := idequeue;
      ghost var k := 0;
      ChainAt(queue, idequeue, qnext[..], 0);
      while qnext[p] != NIL
        invariant 0 <= k < |queue| && p == queue[k] < NBUF && Chain(queue, qnext[..], k)
        decreases |queue| - k
      {
        ChainAt(queue, idequeue, qnext[..], k + 1);
        p := qnext[p];
        k := k + 1;
      }
      if k + 1 < |queue| { ChainAt(queue, idequeue, qnext[..], k + 1); }
    }

    /** ideintr: the buffer at the head of the queue is done. What a dirty one writes left for
        the disk when its turn came; nobody changes it in between. */
    method Ideintr()
      requires Valid()
      modifies bufs, `disk, `idequeue, `queue
      ensures Valid() && Now() == if old(queue) == [] then old(Now()) else Serve(old(Now()))
    {
      if idequeue == NIL {
        return;
      }
      ServeKeeps(Now());
      TailChained(queue, idequeue, qnext[..]);
      var b := idequeue;
      idequeue := qnext[b];
      if bufs[b].dirty {
        disk := disk[bufs[b].id := bufs[b].data];
      } else {
        bufs[b] := bufs[b].(data := Stored(disk, bufs[b].id));
      }
      bufs[b] := bufs[b].(valid := true, dirty := false);
      queue := queue[1..];
    }

    /** bread up to its return or its sleep. A buffer that is not valid is on its way. */
    method Bread(id: Id) returns (out: Outcome)
      requires Valid() && Real(id)
      modifies bufs, qnext, `idequeue, `queue
      ensures Valid() && (Now(), out) == Read(old(Now()), id)
      ensures Answers(old(bufs[..]), stamp, id, out)
      ensures out.Got? ==> out.b < NBUF && bufs[out.b].busy && bufs[out.b].id == id
                           && (if bufs[out.b].valid then bufs[out.b].data == Stored(disk, id) && out.b !in queue
                               else queue == old(queue) + [out.b])
    {
      hide Answers;
      GotIsMine(Now(), id);
      out := Bget(id);
      if out.Got? && !bufs[out.b].valid {
        SubmitKeeps(Now(), out.b);
        var _ := Iderw(out.b);
      }
    }

    /** The holder stores into the buffer. */
    method Store(b: nat, data: Bytes)
      requires Valid() && Holds(Now(), b)
      modifies bufs
      ensures Valid() && Now() == Edit(old(Now()), b, data)
    {
      EditKeeps(Now(), b, data);
      bufs[b] := bufs[b].(data := data);
    }

    /** bwrite up to its sleep; a panic if the caller does not hold the buffer. */
    method Bwrite(b: nat) returns (ok: bool)
      requires Valid() && b < NBUF && b !in queue
      modifies bufs, qnext, `idequeue, `queue
      ensures Valid() && ok == old(bufs[b].busy)
      ensures Now() == if ok then Write(old(Now()), b) else old(Now())
      ensures ok ==> bufs[..] == old(bufs[..])[b := old(bufs[b]).(dirty := true)] && queue == old(queue) + [b] && disk == old(disk)
    {
      ok := bufs[b].busy;
      if ok {
        WriteKeeps(Now(), b);
        bufs[b] := bufs[b].(dirty := true);
        var _ := Iderw(b);
      }
    }

    /** brelse; a panic if the caller does not hold the buffer. What the caller changed it
        must have written. */
    method Brelse(b: nat) returns (ok: bool)
      requires Valid() && b < NBUF && b !in queue && Synced(bufs[b], disk)
      modifies bufs, next, prev, `ring, `stamp, `clock
      ensures Valid() && ok == old(bufs[b].busy)
      ensures Now() == if ok then Release(old(Now()), b) else old(Now())
      ensures ok ==> bufs[..] == old(bufs[..])[b := old(bufs[b]).(busy := false)] && disk == old(disk)
      ensures ok ==> ring[0] == b && forall o :: 0 <= o < NBUF && o != b ==> stamp[o] < stamp[b]
    {
      ok := bufs[b].busy;
      if ok {
        assert b in ring;
        ghost var i := IndexOf(ring, b);
        ReleaseKeeps(Now(), b);
        WithoutDistinct(ring, i);
        FrontOrdered(ring, stamp, i, clock);
        UnlinkKeeps(ring, next[..], prev[..], i);
        prev[next[b]] := prev[b];
        next[prev[b]] := next[b];
        PushFront(b, Without(ring, i));
        bufs[b] := bufs[b].(busy := false);
        ring, stamp, clock := ToFront(ring, i), stamp[b := clock], clock + 1;
      }
    }
  }
}
