/** The disk block cache as values: a few buffers on a ring in order of last use, and the
    driver's queue of buffers waiting for the disk. */
module BufferSpec {
  import opened Basics
  import opened BufferRing

  type Bytes = seq<byte>

  /** The device number of a buffer that has not been used yet. */
  const NODEV := 0xFFFF_FFFF

  datatype Id = Id(dev: nat, sector: nat)

  datatype Buf = Buf(id: Id, busy: bool, valid: bool, dirty: bool, data: Bytes)

  /** What a caller of bget meets. */
  datatype Outcome = Got(b: nat) | Busy(b: nat) | NoBuffers

  datatype Cache = Cache(bufs: seq<Buf>, ring: seq<nat>, disk: map<Id, Bytes>, queue: seq<nat>)

  function Stored(disk: map<Id, Bytes>, id: Id): Bytes { if id in disk then disk[id] else [] }

  predicate Real(id: Id) { id.dev < NODEV }

  /** No two buffers hold the same sector. */
  predicate Unique(bufs: seq<Buf>) {
    forall i, j :: 0 <= i < j < |bufs| && Real(bufs[i].id) ==> bufs[i].id != bufs[j].id
  }

  /** The buffer's bytes are the disk's. */
  predicate Synced(b: Buf, disk: map<Id, Bytes>) { b.valid ==> b.data == Stored(disk, b.id) }

  /** A buffer waiting for the disk is held and has something to transfer; only such a one is
      dirty; an idle one agrees with the disk. */
  predicate Settled(b: Buf, queued: bool, disk: map<Id, Bytes>) {
    && (b.busy || b.valid ==> Real(b.id))
    && (queued ==> b.busy && (b.dirty || !b.valid))
    && (b.dirty ==> queued)
    && (!b.busy ==> Synced(b, disk))
  }

  ghost predicate Shape(c: Cache) { |c.bufs| == NBUF && Covers(c.ring) && Unique(c.bufs) && Distinct(c.queue) }

  ghost predicate Inv(c: Cache) {
    Shape(c) && forall b :: 0 <= b < NBUF ==> Settled(c.bufs[b], b in c.queue, c.disk)
  }

  // ----- the operations

  function Fresh(disk: map<Id, Bytes>): Cache {
    Cache(seq(NBUF, _ => Buf(Id(NODEV, 0), false, false, false, [])), seq(NBUF, i => NBUF - 1 - i), disk, [])
  }

  /** The first buffer from position k of the ring that holds the sector. */
  function Find(bufs: seq<Buf>, ring: seq<nat>, id: Id, k: nat): (r: Option<nat>)
    requires k <= |ring| && forall i :: 0 <= i < |ring| ==> ring[i] < |bufs|
    ensures r.Some? ==> r.value < |bufs| && r.value in ring && bufs[r.value].id == id
    ensures r.None? ==> forall i :: k <= i < |ring| ==> bufs[ring[i]].id != id
    decreases |ring| - k
  {
    if k == |ring| then None else if bufs[ring[k]].id == id then Some(ring[k]) else Find(bufs, ring, id, k + 1)
  }

  /** The last idle buffer among the first k of the ring. */
  function LastIdle(bufs: seq<Buf>, ring: seq<nat>, k: nat): (r: Option<nat>)
    requires k <= |ring| && forall i :: 0 <= i < |ring| ==> ring[i] < |bufs|
    ensures r.Some? ==> r.value < |bufs| && r.value in ring && !bufs[r.value].busy
    ensures r.None? ==> forall i :: 0 <= i < k ==> bufs[ring[i]].busy
    decreases k
  {
    if k == 0 then None else if !bufs[ring[k - 1]].busy then Some(ring[k - 1]) else LastIdle(bufs, ring, k - 1)
  }

  /** bget. */
  function Get(c: Cache, id: Id): (r: (Cache, Outcome))
    requires |c.bufs| == NBUF && Distinct(c.ring)
    ensures |r.0.bufs| == NBUF && r.0 == c.(bufs := r.0.bufs)
    ensures r.1.Got? ==> r.1.b < NBUF
  {
    var cached := Find(c.bufs, c.ring, id, 0);
    if cached.Some? then
      var b := cached.value;
      if c.bufs[b].busy then (c, Busy(b)) else (c.(bufs := c.bufs[b := c.bufs[b].(busy := true)]), Got(b))
    else
      var idle := LastIdle(c.bufs, c.ring, |c.ring|);
      if idle.None? then (c, NoBuffers)
      else (c.(bufs := c.bufs[idle.value := Buf(id, true, false, false, c.bufs[idle.value].data)]), Got(idle.value))
  }

  /** iderw up to its sleep: the buffer joins the queue. */
  function Submit(c: Cache, b: nat): Cache { c.(queue := c.queue + [b]) }

  /** bread up to its return or its sleep. */
  function Read(c: Cache, id: Id): (r: (Cache, Outcome))
    requires |c.bufs| == NBUF && Distinct(c.ring)
  {
    var g := Get(c, id);
    if g.1.Got? && !g.0.bufs[g.1.b].valid then (Submit(g.0, g.1.b), g.1) else g
  }

  /** The holder of a buffer changes its bytes. */
  function Edit(c: Cache, b: nat, data: Bytes): Cache
    requires b < |c.bufs|
  {
    c.(bufs := c.bufs[b := c.bufs[b].(data := data)])
  }

  /** bwrite up to its sleep. */
  function Write(c: Cache, b: nat): Cache
    requires b < |c.bufs|
  {
    Submit(c.(bufs := c.bufs[b := c.bufs[b].(dirty := true)]), b)
  }

  /** What the disk does for a buffer: a dirty one is written, another one read. */
  function Transfer(c: Cache, b: nat): (r: Cache)
    requires b < |c.bufs|
  {
    var buf := c.bufs[b];
    if buf.dirty then
      c.(bufs := c.bufs[b := buf.(valid := true, dirty := false)], disk := c.disk[buf.id := buf.data])
    else
      c.(bufs := c.bufs[b := buf.(valid := true, data := Stored(c.disk, buf.id))])
  }

  /** The disk's interrupt: the transfer at the head of the queue is done. */
  function Serve(c: Cache): Cache
    requires c.queue != [] && c.queue[0] < |c.bufs|
  {
    Transfer(c.(queue := c.queue[1..]), c.queue[0])
  }

  function IndexOf(ring: seq<nat>, b: nat): (i: nat)
    requires b in ring
    ensures i < |ring| && ring[i] == b
  {
    if ring[0] == b then 0 else 1 + IndexOf(ring[1..], b)
  }

  /** brelse. */
  function Release(c: Cache, b: nat): Cache
    requires b < |c.bufs| && b in c.ring
  {
    c.(bufs := c.bufs[b := c.bufs[b].(busy := false)], ring := ToFront(c.ring, IndexOf(c.ring, b)))
  }

  /** The caller holds the buffer and is not waiting for the disk. */
  predicate Holds(c: Cache, b: nat) { b < |c.bufs| && c.bufs[b].busy && b !in c.queue }

  // ----- what every operation keeps

  lemma FreshInv(disk: map<Id, Bytes>)
    ensures Inv(Fresh(disk))
  {
    forall b | 0 <= b < NBUF ensures b in Fresh(disk).ring {
      assert Fresh(disk).ring[NBUF - 1 - b] == b;
    }
  }

  lemma BufAt(c: Cache, b: nat)
    requires Inv(c) && b < NBUF
    ensures Shape(c) && Settled(c.bufs[b], b in c.queue, c.disk)
  {}

  lemma FoundAll(c: Cache, id: Id)
    requires |c.bufs| == NBUF && Covers(c.ring) && Find(c.bufs, c.ring, id, 0).None?
    ensures forall b :: 0 <= b < NBUF ==> c.bufs[b].id != id
  {
    forall b | 0 <= b < NBUF ensures c.bufs[b].id != id {
      assert b in c.ring;
    }
  }

  /** A buffer is handed to one caller at a time, it is the sector asked for, and if valid its
      bytes are the disk's. */
  lemma GotIsMine(c: Cache, id: Id)
    requires Inv(c) && Real(id)
    ensures Inv(Get(c, id).0)
    ensures var (d, o) := Get(c, id);
            && (o.Got? ==> && o.b < NBUF && !c.bufs[o.b].busy && Holds(d, o.b) && d.bufs[o.b].id == id && Synced(d.bufs[o.b], d.disk)
                           && forall j :: 0 <= j < NBUF && j != o.b ==> d.bufs[j] == c.bufs[j])
            && (!o.Got? ==> d == c)
  {
    hide Find, LastIdle;
    if Find(c.bufs, c.ring, id, 0).None? {
      FoundAll(c, id);
    }
    var (d, o) := Get(c, id);
    if o.Got? { BufAt(c, o.b); }
  }

  lemma SubmitKeeps(c: Cache, b: nat)
    requires Inv(c) && Holds(c, b) && !c.bufs[b].valid
    ensures Inv(Submit(c, b))
  {
    Queued(c.queue, b);
    forall j | 0 <= j < NBUF ensures Settled(c.bufs[j], j in Submit(c, b).queue, c.disk) {
      BufAt(c, j);
    }
  }

  lemma Queued(q: seq<nat>, b: nat)
    requires Distinct(q) && b !in q && b < NBUF
    ensures Distinct(q + [b]) && forall j :: j in q + [b] <==> j == b || j in q
  {}

  lemma EditKeeps(c: Cache, b: nat, data: Bytes)
    requires Inv(c) && Holds(c, b)
    ensures Inv(Edit(c, b, data))
  {
    forall j | 0 <= j < NBUF ensures Settled(Edit(c, b, data).bufs[j], j in c.queue, c.disk) {
      BufAt(c, j);
    }
  }

  lemma WriteKeeps(c: Cache, b: nat)
    requires Inv(c) && Holds(c, b)
    ensures Inv(Write(c, b))
  {
    Queued(c.queue, b);
    var d := Write(c, b);
    forall j | 0 <= j < NBUF ensures Settled(d.bufs[j], j in d.queue, d.disk) {
      BufAt(c, j);
    }
  }

  /** The interrupt leaves the head of the queue valid, clean and equal to the disk, and no
      other sector of the disk changed. */
  lemma ServeKeeps(c: Cache)
    requires Inv(c) && c.queue != []
    ensures c.queue[0] < NBUF
    ensures var (d, b) := (Serve(c), c.queue[0]);
            && Inv(d) && d.queue == c.queue[1..] && d.bufs[b].valid && Holds(d, b) && Synced(d.bufs[b], d.disk)
            && d.bufs[b].id == c.bufs[b].id && Real(d.bufs[b].id)
            && d.disk == (if c.bufs[b].dirty then c.disk[c.bufs[b].id := c.bufs[b].data] else c.disk)
            && forall j :: 0 <= j < NBUF && j != b ==> d.bufs[j] == c.bufs[j]
  {
    var (d, b) := (Serve(c), c.queue[0]);
    assert c.queue == [b] + c.queue[1..];
    BufAt(c, b);
    assert b !in c.queue[1..];
    forall j | 0 <= j < NBUF ensures Settled(d.bufs[j], j in d.queue, d.disk) {
      BufAt(c, j);
      if j != b { OtherSector(c, j, b); }
    }
    assert Unique(d.bufs) by {
      assert forall j :: 0 <= j < NBUF ==> d.bufs[j].id == c.bufs[j].id;
    }
  }

  lemma OtherSector(c: Cache, i: nat, j: nat)
    requires Shape(c) && i < NBUF && j < NBUF && i != j && Real(c.bufs[j].id)
    ensures c.bufs[i].id != c.bufs[j].id
  {}

  lemma ReleaseKeeps(c: Cache, b: nat)
    requires Inv(c) && Holds(c, b) && Synced(c.bufs[b], c.disk) && b in c.ring
    ensures Inv(Release(c, b))
  {
    var i := IndexOf(c.ring, b);
    WithoutDistinct(c.ring, i);
    var d := Release(c, b);
    forall x | 0 <= x < NBUF ensures x in d.ring && Settled(d.bufs[x], x in d.queue, d.disk) {
      assert x in c.ring;
      BufAt(c, x);
    }
    assert Unique(d.bufs) by {
      assert forall j :: 0 <= j < NBUF ==> d.bufs[j].id == c.bufs[j].id;
    }
  }

  // ----- least recently used

  /** Nothing idle stands behind the buffer that is recycled. */
  lemma {:induction false} LastIdleIsLast(bufs: seq<Buf>, ring: seq<nat>, k: nat)
    requires Distinct(ring) && k <= |ring| && |bufs| == NBUF && LastIdle(bufs, ring, k).Some?
    ensures exists i :: 0 <= i < k && ring[i] == LastIdle(bufs, ring, k).value && forall j :: i < j < k ==> bufs[ring[j]].busy
    decreases k
  {
    if bufs[ring[k - 1]].busy {
      LastIdleIsLast(bufs, ring, k - 1);
    } else {
      assert ring[k - 1] == LastIdle(bufs, ring, k).value;
    }
  }

  /** When bget recycles a buffer, every other idle buffer was released after it. */
  lemma RecyclesOldest(c: Cache, id: Id, stamp: seq<int>, b: nat)
    requires Inv(c) && Ordered(c.ring, stamp) && Find(c.bufs, c.ring, id, 0).None? && Get(c, id).1 == Got(b)
    requires b < NBUF
    ensures !c.bufs[b].busy
    ensures forall o :: 0 <= o < NBUF && !c.bufs[o].busy && o != b ==> stamp[o] > stamp[b]
  {
    LastIdleIsLast(c.bufs, c.ring, |c.ring|);
    var i :| 0 <= i < |c.ring| && c.ring[i] == b && forall j :: i < j < |c.ring| ==> c.bufs[c.ring[j]].busy;
    forall o | 0 <= o < NBUF && !c.bufs[o].busy && o != b ensures stamp[o] > stamp[b] {
      assert o in c.ring;
      var k :| 0 <= k < |c.ring| && c.ring[k] == o;
      assert k < i;
    }
  }

  // ----- whom bget serves, said of the buffers alone

  /** An idle buffer that holds the sector; or, if none holds it, the idle one released longest ago. */
  ghost predicate Gives(bufs: seq<Buf>, stamp: seq<int>, id: Id, b: nat)
    requires |bufs| == NBUF == |stamp| && b < NBUF
  {
    && !bufs[b].busy
    && (bufs[b].id == id
        || ((forall j :: 0 <= j < NBUF ==> bufs[j].id != id) && forall j :: 0 <= j < NBUF && j != b && !bufs[j].busy ==> stamp[j] > stamp[b]))
  }

  /** A buffer is given exactly to whom one can be given; the caller waits for exactly the busy
      buffer of its sector; there are no buffers exactly if none holds the sector and all are busy. */
  ghost predicate Answers(bufs: seq<Buf>, stamp: seq<int>, id: Id, o: Outcome)
    requires |bufs| == NBUF == |stamp|
  {
    && (forall b: nat :: o == Got(b) <==> b < NBUF && Gives(bufs, stamp, id, b))
    && (forall b: nat :: o == Busy(b) <==> b < NBUF && bufs[b].id == id && bufs[b].busy)
    && (o == NoBuffers <==> forall b :: 0 <= b < NBUF ==> bufs[b].id != id && bufs[b].busy)
  }

  /** The buffer given: as it was but busy, or taken over for the sector without its bytes counting. */
  function Handed(buf: Buf, id: Id): Buf {
    if buf.id == id then buf.(busy := true) else Buf(id, true, false, false, buf.data)
  }

  lemma OnRing(c: Cache, b: nat)
    requires Shape(c) && b < NBUF
    ensures exists i :: 0 <= i < |c.ring| && c.ring[i] == b
  {
    assert b in c.ring;
  }

  lemma GetExactly(c: Cache, id: Id, stamp: seq<int>)
    requires Inv(c) && Real(id) && Ordered(c.ring, stamp)
    ensures |c.bufs| == NBUF == |stamp| && Answers(c.bufs, stamp, id, Get(c, id).1)
    ensures var (d, o) := Get(c, id);
            d == (if o.Got? then c.(bufs := c.bufs[o.b := Handed(c.bufs[o.b], id)]) else c)
  {
    var cached := Find(c.bufs, c.ring, id, 0);
    if cached.Some? {
      CachedAnswers(c, id, stamp, cached.value);
    } else {
      FoundAll(c, id);
      var idle := LastIdle(c.bufs, c.ring, |c.ring|);
      if idle.None? {
        NoneIdle(c);
      } else {
        RecyclesOldest(c, id, stamp, idle.value);
        IdleAnswers(c, id, stamp, idle.value);
      }
    }
  }

  lemma CachedAnswers(c: Cache, id: Id, stamp: seq<int>, k: nat)
    requires Shape(c) && Real(id) && |stamp| == NBUF && k < NBUF && c.bufs[k].id == id
    ensures Answers(c.bufs, stamp, id, if c.bufs[k].busy then Busy(k) else Got(k))
  {
    forall b: nat | b < NBUF && b != k ensures c.bufs[b].id != id { OtherSector(c, b, k); }
  }

  lemma IdleAnswers(c: Cache, id: Id, stamp: seq<int>, k: nat)
    requires Shape(c) && |stamp| == NBUF && k < NBUF && !c.bufs[k].busy && forall b :: 0 <= b < NBUF ==> c.bufs[b].id != id
    requires forall o :: 0 <= o < NBUF && !c.bufs[o].busy && o != k ==> stamp[o] > stamp[k]
    ensures Answers(c.bufs, stamp, id, Got(k))
  {
    forall b: nat | b < NBUF && Gives(c.bufs, stamp, id, b) ensures b == k {}
  }

  lemma NoneIdle(c: Cache)
    requires Shape(c) && LastIdle(c.bufs, c.ring, |c.ring|).None?
    ensures forall b :: 0 <= b < NBUF ==> c.bufs[b].busy
  {
    forall b: nat | b < NBUF ensures c.bufs[b].busy { OnRing(c, b); }
  }
}
