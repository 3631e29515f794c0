/** All interleavings of the cache's callers with each other and with the disk. */
module BufferRuns {
  import opened Basics
  import opened BufferRing
  import opened BufferSpec

  /** A bread is Take and, if the buffer is not valid, Fetch; a bwrite is Store. Both then
      sleep until an Interrupt has served their buffer. */
  datatype Op = Take(id: Id) | Fetch(b: nat) | Change(b: nat, data: Bytes) | Store(b: nat) | Interrupt | Return(b: nat)

  /** Only the holder uses a buffer, not while it sleeps in the driver, and what it changed it
      returns only after writing it. */
  predicate May(c: Cache, op: Op) {
    match op
    case Take(id) => Real(id)
    case Fetch(b) => Holds(c, b) && !c.bufs[b].valid
    case Change(b, _) => Holds(c, b)
    case Store(b) => Holds(c, b)
    case Interrupt => c.queue != []
    case Return(b) => Holds(c, b) && Synced(c.bufs[b], c.disk)
  }

  ghost function Do(c: Cache, op: Op): (d: Cache)
    requires Inv(c)
    ensures Inv(d)
  {
    DoKeeps(c, op);
    Step(c, op)
  }

  function Step(c: Cache, op: Op): Cache
    requires |c.bufs| == NBUF && Covers(c.ring) && Distinct(c.queue)
  {
    if !May(c, op) then c else
      match op
      case Take(id) => Get(c, id).0
      case Fetch(b) => Submit(c, b)
      case Change(b, data) => Edit(c, b, data)
      case Store(b) => Write(c, b)
      case Interrupt => Serve(c)
      case Return(b) => Release(c, b)
  }

  lemma DoKeeps(c: Cache, op: Op)
    requires Inv(c)
    ensures Inv(Step(c, op))
  {
    hide Inv, Get, Submit, Edit, Write, Serve, Release;
    InvShape(c);
    if May(c, op) {
      match op
      case Take(id) => GotIsMine(c, id);
      case Fetch(b) => SubmitKeeps(c, b);
      case Change(b, data) => EditKeeps(c, b, data);
      case Store(b) => WriteKeeps(c, b);
      case Interrupt => ServeKeeps(c);
      case Return(b) => ReleaseKeeps(c, b);
    }
  }

  lemma InvShape(c: Cache)
    requires Inv(c)
    ensures |c.bufs| == NBUF && Covers(c.ring) && Distinct(c.queue)
  {}

  /** The cache after a run, which keeps its invariant throughout. */
  ghost function After(disk: map<Id, Bytes>, run: seq<Op>): (c: Cache)
    ensures Inv(c)
    decreases run
  {
    if run == [] then
      FreshInv(disk);
      Fresh(disk)
    else
      Do(After(disk, run[..|run| - 1]), run[|run| - 1])
  }

  /** The sector and the bytes a step puts on the disk. */
  predicate Writes(c: Cache, op: Op, id: Id) {
    op.Interrupt? && c.queue != [] && c.queue[0] < |c.bufs| && c.bufs[c.queue[0]].dirty && c.bufs[c.queue[0]].id == id
  }

  /** The bytes the last completed bwrite of the sector wrote, or what the disk had at first. */
  ghost function LastWritten(disk: map<Id, Bytes>, run: seq<Op>, id: Id): Bytes
    decreases run
  {
    if run == [] then Stored(disk, id) else
      var (before, op) := (After(disk, run[..|run| - 1]), run[|run| - 1]);
      if Writes(before, op, id) then before.bufs[before.queue[0]].data else LastWritten(disk, run[..|run| - 1], id)
  }

  /** Whether a step starts a buffer anew: bget hands it out, or the disk has served it. */
  predicate Renews(c: Cache, op: Op, b: nat)
    requires |c.bufs| == NBUF && Covers(c.ring)
  {
    match op
    case Take(id) => Real(id) && Get(c, id).1 == Got(b)
    case Interrupt => c.queue != [] && c.queue[0] == b
    case _ => false
  }

  /** Whether the buffer's holder changed it since. */
  ghost predicate Changed(disk: map<Id, Bytes>, run: seq<Op>, b: nat)
    decreases run
  {
    if run == [] then false else
      var (before, op) := (After(disk, run[..|run| - 1]), run[|run| - 1]);
      InvShape(before);
      if op.Change? && op.b == b && May(before, op) then true
      else if Renews(before, op, b) then false
      else Changed(disk, run[..|run| - 1], b)
  }

  lemma {:induction false} DiskIsLastWritten(disk: map<Id, Bytes>, run: seq<Op>, id: Id)
    ensures Stored(After(disk, run).disk, id) == LastWritten(disk, run, id)
    decreases run
  {
    hide Inv, Get, Serve, Release, May;
    if run != [] {
      DiskIsLastWritten(disk, run[..|run| - 1], id);
      var (c, op) := (After(disk, run[..|run| - 1]), run[|run| - 1]);
      InvShape(c);
      StepDisk(c, op);
    }
  }

  /** Only an interrupt changes the disk. */
  lemma StepDisk(c: Cache, op: Op)
    requires Inv(c)
    ensures op.Interrupt? && c.queue != [] ==> c.queue[0] < NBUF && |c.bufs| == NBUF
    ensures var d := Do(c, op);
            d.disk == if op.Interrupt? && c.queue != [] && c.bufs[c.queue[0]].dirty
                      then c.disk[c.bufs[c.queue[0]].id := c.bufs[c.queue[0]].data] else c.disk
  {
    hide Inv, Get, Serve;
    InvShape(c);
    if op.Interrupt? && c.queue != [] { ServeKeeps(c); }
  }

  /** What a step does to buffer b. */
  lemma StepSynced(c: Cache, op: Op, b: nat)
    requires Inv(c) && b < NBUF && |c.bufs| == NBUF && Covers(c.ring)
    requires !(op.Change? && op.b == b && May(c, op)) && (Synced(c.bufs[b], c.disk) || Renews(c, op, b))
    ensures Synced(Do(c, op).bufs[b], Do(c, op).disk)
  {
    hide Inv, Get, Serve, Unique;
    InvShape(c);
    match op
    case Take(id) => if Real(id) { GotIsMine(c, id); }
    case Interrupt =>
      if c.queue != [] {
        ServeKeeps(c);
        if b != c.queue[0] { ServedOther(c, b); }
      }
    case _ =>
  }

  lemma ServedOther(c: Cache, b: nat)
    requires Inv(c) && c.queue != [] && b < NBUF && b != c.queue[0]
    ensures c.queue[0] < NBUF && c.bufs[b].id != c.bufs[c.queue[0]].id
  {
    BufAt(c, c.queue[0]);
    OtherSector(c, b, c.queue[0]);
  }

  lemma {:induction false} UnchangedIsSynced(disk: map<Id, Bytes>, run: seq<Op>, b: nat)
    requires b < NBUF && !Changed(disk, run, b)
    ensures var c := After(disk, run); |c.bufs| == NBUF && Synced(c.bufs[b], c.disk)
    decreases run
  {
    hide Inv, Do, May, Renews, Synced;
    InvShape(After(disk, run));
    if run == [] {
      FreshSynced(disk, b);
    } else {
      var (c, op) := (After(disk, run[..|run| - 1]), run[|run| - 1]);
      InvShape(c);
      if !Renews(c, op, b) { UnchangedIsSynced(disk, run[..|run| - 1], b); }
      StepSynced(c, op, b);
    }
  }

  lemma FreshSynced(disk: map<Id, Bytes>, b: nat)
    requires b < NBUF
    ensures Synced(Fresh(disk).bufs[b], disk)
  {}

  /** After any run, a valid buffer its holder has not changed has the bytes of the last bwrite
      of its sector: what bread returns, at once or after its sleep. */
  lemma ReadGivesLastWritten(disk: map<Id, Bytes>, run: seq<Op>, b: nat)
    requires b < NBUF && !Changed(disk, run, b)
    ensures var c := After(disk, run);
            |c.bufs| == NBUF && (c.bufs[b].valid ==> c.bufs[b].data == LastWritten(disk, run, c.bufs[b].id))
  {
    hide Inv, After, LastWritten, Changed;
    UnchangedIsSynced(disk, run, b);
    DiskIsLastWritten(disk, run, After(disk, run).bufs[b].id);
  }

  // ----- every transfer is done, in turn

  /** How many interrupts a run has. */
  function Interrupts(run: seq<Op>): nat {
    if run == [] then 0 else Interrupts(run[..|run| - 1]) + if run[|run| - 1].Interrupt? then 1 else 0
  }

  /** The other buffers of the queue move up or stay; what waits is not touched. */
  lemma StepQueue(c: Cache, op: Op, k: nat)
    requires Inv(c) && k < |c.queue| && (op.Interrupt? ==> k > 0)
    ensures var (d, j) := (Do(c, op), if op.Interrupt? then k - 1 else k);
            && j < |d.queue| && d.queue[j] == c.queue[k] < NBUF == |c.bufs| == |d.bufs|
            && d.bufs[c.queue[k]] == c.bufs[c.queue[k]]
  {
    hide Inv, Get, Serve, Unique;
    InvShape(c);
    InvShape(Do(c, op));
    var b := c.queue[k];
    assert b in c.queue;
    BufAt(c, b);
    if May(c, op) {
      match op
      case Take(id) => GotIsMine(c, id); GotOther(c, id, b);
      case Interrupt => ServeKeeps(c);
      case Return(o) => assert o != b;
      case _ =>
    }
  }

  lemma GotOther(c: Cache, id: Id, b: nat)
    requires |c.bufs| == NBUF && Distinct(c.ring) && b < NBUF && c.bufs[b].busy
    ensures Get(c, id).0.bufs[b] == c.bufs[b]
  {}

  lemma {:induction false} QueueMoves(disk: map<Id, Bytes>, run: seq<Op>, more: seq<Op>, k: nat)
    requires k < |After(disk, run).queue| && Interrupts(more) <= k
    ensures var (c, d) := (After(disk, run), After(disk, run + more));
            && k - Interrupts(more) < |d.queue| && d.queue[k - Interrupts(more)] == c.queue[k] < NBUF == |c.bufs| == |d.bufs|
            && d.bufs[c.queue[k]] == c.bufs[c.queue[k]]
    decreases more
  {
    hide Inv, Do, Step;
    var c := After(disk, run);
    InvShape(c);
    if more == [] {
      assert run + more == run;
    } else {
      var (less, op) := (more[..|more| - 1], more[|more| - 1]);
      QueueMoves(disk, run, less, k);
      assert (run + more)[..|run + more| - 1] == run + less && (run + more)[|run + more| - 1] == op;
      StepQueue(After(disk, run + less), op, k - Interrupts(less));
    }
  }

  /** A bwrite's bytes are on the disk, in its sector, after as many interrupts as buffers were
      waiting before it and one more, whatever else happens meanwhile. */
  lemma WriteLands(disk: map<Id, Bytes>, run: seq<Op>, b: nat, more: seq<Op>)
    requires Holds(After(disk, run), b) && Interrupts(more) == |After(disk, run).queue|
    ensures var (c, d) := (After(disk, run), After(disk, run + [Store(b)] + more + [Interrupt]));
            && |c.bufs| == |d.bufs| == NBUF && b < NBUF && d.bufs[b].valid && Holds(d, b)
            && d.bufs[b].id == c.bufs[b].id && d.bufs[b].data == c.bufs[b].data == Stored(d.disk, c.bufs[b].id)
  {
    hide Inv, Serve, Interrupts;
    var (c, first, all) := (After(disk, run), run + [Store(b)], run + [Store(b)] + more + [Interrupt]);
    InvShape(c);
    assert first[..|first| - 1] == run && first[|first| - 1] == Store(b);
    assert After(disk, first) == Write(c, b);
    QueueMoves(disk, first, more, |c.queue|);
    var e := After(disk, first + more);
    assert all[..|all| - 1] == first + more && all[|all| - 1] == Interrupt;
    ServeKeeps(e);
    InvShape(After(disk, all));
  }
}
