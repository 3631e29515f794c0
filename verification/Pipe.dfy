/** The kernel pipe: a ring of 512 bytes between two counters that wrap at 2^32.

    A process holds the pipe's lock from its call, or from waking up, until it sleeps or
    returns; such a stretch is one step here, and steps of different processes interleave
    in any order. */
module Pipe {
  import opened Basics

  const PIPESIZE := 512
  const WRAP := 0x1_0000_0000

  datatype Ring = Ring(data: seq<byte>, nread: nat, nwrite: nat, readopen: bool, writeopen: bool) {
    predicate Shaped() { |data| == PIPESIZE && nread < WRAP && nwrite < WRAP }

    predicate Full() { nwrite == (nread + PIPESIZE) % WRAP }

    predicate Empty() { nread == nwrite }

    function Put(c: byte): (r: Ring)
      requires Shaped()
      ensures r.Shaped()
    {
      this.(data := data[nwrite % PIPESIZE := c], nwrite := (nwrite + 1) % WRAP)
    }

    function Drop(): (r: Ring)
      requires Shaped()
      ensures r.Shaped()
    {
      this.(nread := (nread + 1) % WRAP)
    }

    function First(): byte
      requires Shaped()
    {
      data[nread % PIPESIZE]
    }
  }

  /** A writer's stretch: the ring afterwards and how many bytes went in before it filled up. */
  function WriteFrom(p: Ring, src: seq<byte>): (r: (Ring, nat))
    requires p.Shaped()
    ensures r.0.Shaped() && r.1 <= |src|
    decreases src
  {
    if src == [] || p.Full() then (p, 0) else
      var r := WriteFrom(p.Put(src[0]), src[1..]);
      (r.0, r.1 + 1)
  }

  /** A reader's stretch: at most n bytes, until the ring is empty. */
  function ReadUpTo(p: Ring, n: nat): (r: (Ring, seq<byte>))
    requires p.Shaped()
    ensures r.0.Shaped() && |r.1| <= n
    decreases n
  {
    if n == 0 || p.Empty() then (p, []) else
      var r := ReadUpTo(p.Drop(), n - 1);
      (r.0, [p.First()] + r.1)
  }

  // ----- the ring as a window on everything ever written

  /** Byte k of the history is still in its place of the ring. */
  predicate Kept(p: Ring, sent: seq<byte>, k: nat)
    requires |p.data| == PIPESIZE && k < |sent|
  {
    p.data[k % PIPESIZE] == sent[k]
  }

  /** The ring after `sent` went in and `got` came out: what came out is the start of what
      went in, the counters are the two lengths modulo 2^32, and the rest is in the ring. */
  ghost predicate Between(p: Ring, sent: seq<byte>, got: seq<byte>) {
    && p.Shaped() && got <= sent && |sent| - |got| <= PIPESIZE
    && p.nread == |got| % WRAP && p.nwrite == |sent| % WRAP
    && (forall k :: |got| <= k < |sent| ==> Kept(p, sent, k))
  }

  /** The bytes in the ring, oldest first. */
  function Buffered(p: Ring): seq<byte>
    requires p.Shaped()
  {
    seq((p.nwrite - p.nread) % WRAP, k requires 0 <= k => p.data[(p.nread + k) % WRAP % PIPESIZE])
  }

  lemma WrapKeepsPlace(n: nat)
    ensures n % WRAP % PIPESIZE == n % PIPESIZE
  {
    var q := n / WRAP;
    assert n == n % WRAP + PIPESIZE * (q * 0x80_0000);
    ModPlus(n % WRAP, q * 0x80_0000);
  }

  lemma ModPlus(a: nat, m: nat)
    ensures (a + PIPESIZE * m) % PIPESIZE == a % PIPESIZE
  {
    var q := a / PIPESIZE;
    assert a + PIPESIZE * m == PIPESIZE * (q + m) + a % PIPESIZE;
  }

  lemma WrapDiff(r: nat, d: nat)
    requires d <= PIPESIZE
    ensures ((r + d) % WRAP - r % WRAP) % WRAP == d
    ensures (r + d) % WRAP == (r % WRAP + PIPESIZE) % WRAP <==> d == PIPESIZE
    ensures (r + d) % WRAP == r % WRAP <==> d == 0
  {
    var (a, q) := (r % WRAP, r / WRAP);
    assert r + d == WRAP * q + (a + d);
    if a + d < WRAP {
      assert (r + d) % WRAP == a + d;
    } else {
      assert r + d == WRAP * (q + 1) + (a + d - WRAP);
      assert (r + d) % WRAP == a + d - WRAP;
    }
  }

  /** The wrapped counters tell full from empty and how much is buffered. */
  lemma CountersTell(p: Ring, sent: seq<byte>, got: seq<byte>)
    requires Between(p, sent, got)
    ensures p.Full() <==> |sent| - |got| == PIPESIZE
    ensures p.Empty() <==> sent == got
    ensures (p.nwrite - p.nread) % WRAP == |sent| - |got|
  {
    WrapDiff(|got|, |sent| - |got|);
    assert |sent| == |got| ==> sent == got;
  }

  /** Different bytes in the window have different places. */
  lemma PlacesDiffer(j: nat, k: nat)
    requires j < k < j + PIPESIZE
    ensures j % PIPESIZE != k % PIPESIZE
  {
    assert k - j == PIPESIZE * (k / PIPESIZE - j / PIPESIZE) + (k % PIPESIZE - j % PIPESIZE);
  }

  lemma NextCount(n: nat)
    ensures (n % WRAP + 1) % WRAP == (n + 1) % WRAP
  {
    var (a, q) := (n % WRAP, n / WRAP);
    assert n + 1 == WRAP * q + (a + 1);
    if a + 1 == WRAP {
      assert n + 1 == WRAP * (q + 1);
    }
  }

  lemma PutKept(p: Ring, sent: seq<byte>, c: byte, k: nat)
    requires p.Shaped() && p.nwrite == |sent| % WRAP && |sent| < k + PIPESIZE && k <= |sent|
    requires k < |sent| ==> Kept(p, sent, k)
    ensures Kept(p.Put(c), sent + [c], k)
  {
    WrapKeepsPlace(|sent|);
    if k < |sent| {
      PlacesDiffer(k, |sent|);
    }
  }

  lemma PutKeeps(p: Ring, sent: seq<byte>, got: seq<byte>, c: byte)
    requires Between(p, sent, got) && !p.Full()
    ensures Between(p.Put(c), sent + [c], got)
  {
    hide Kept;
    CountersTell(p, sent, got);
    NextCount(|sent|);
    forall k | |got| <= k < |sent + [c]| ensures Kept(p.Put(c), sent + [c], k) {
      PutKept(p, sent, c, k);
    }
  }

  lemma FirstIs(p: Ring, sent: seq<byte>, k: nat)
    requires p.Shaped() && k < |sent| && p.nread == k % WRAP && Kept(p, sent, k)
    ensures p.First() == sent[k]
  {
    WrapKeepsPlace(k);
  }

  lemma DropKeeps(p: Ring, sent: seq<byte>, got: seq<byte>)
    requires Between(p, sent, got) && !p.Empty()
    ensures Between(p.Drop(), sent, got + [p.First()])
  {
    hide Ring.First;
    CountersTell(p, sent, got);
    NextCount(|got|);
    assert |got| < |sent| by { assert |got| == |sent| ==> got == sent; }
    FirstIs(p, sent, |got|);
    StillKept(p, sent, |got|);
  }

  lemma StillKept(p: Ring, sent: seq<byte>, from: nat)
    requires p.Shaped() && forall k :: from <= k < |sent| ==> Kept(p, sent, k)
    ensures forall k :: from <= k < |sent| ==> Kept(p.Drop(), sent, k)
  {
    forall k | from <= k < |sent| ensures Kept(p.Drop(), sent, k) {
      assert Kept(p, sent, k);
    }
  }

  lemma BufferedAt(p: Ring, sent: seq<byte>, r: nat, k: nat)
    requires p.Shaped() && r <= k < |sent| && p.nread == r % WRAP && Kept(p, sent, k)
    ensures p.data[(p.nread + (k - r)) % WRAP % PIPESIZE] == sent[k]
  {
    var q := r / WRAP;
    assert k == WRAP * q + (p.nread + (k - r));
    ModSame(p.nread + (k - r), q);
    WrapKeepsPlace(k);
  }

  lemma ModSame(a: nat, q: nat)
    ensures (WRAP * q + a) % WRAP == a % WRAP
  {
    assert WRAP * q + a == WRAP * (q + a / WRAP) + a % WRAP;
  }

  /** The ring holds exactly what was written and not yet read, in order. */
  lemma BufferedIs(p: Ring, sent: seq<byte>, got: seq<byte>)
    requires Between(p, sent, got)
    ensures sent == got + Buffered(p) && |Buffered(p)| <= PIPESIZE
  {
    CountersTell(p, sent, got);
    forall k | |got| <= k < |sent| ensures Buffered(p)[k - |got|] == sent[k] {
      BufferedAt(p, sent, |got|, k);
    }
    assert sent == got + Buffered(p);
  }

  lemma {:induction false} WriteKeeps(p: Ring, src: seq<byte>, sent: seq<byte>, got: seq<byte>)
    requires Between(p, sent, got)
    ensures var r := WriteFrom(p, src);
            && Between(r.0, sent + src[..r.1], got)
            && r.1 == if |src| <= 512 - (|sent| - |got|) then |src| else 512 - (|sent| - |got|)
    decreases src
  {
    CountersTell(p, sent, got);
    hide Between, Ring.Put;
    if src == [] || p.Full() {
      assert sent + src[..0] == sent;
    } else {
      PutKeeps(p, sent, got, src[0]);
      WriteKeeps(p.Put(src[0]), src[1..], sent + [src[0]], got);
      var k := WriteFrom(p.Put(src[0]), src[1..]).1;
      assert sent + [src[0]] + src[1..][..k] == sent + src[..k + 1];
    }
  }

  lemma {:induction false} ReadKeeps(p: Ring, n: nat, sent: seq<byte>, got: seq<byte>)
    requires Between(p, sent, got)
    ensures var r := ReadUpTo(p, n);
            && Between(r.0, sent, got + r.1)
            && |r.1| == if n <= |sent| - |got| then n else |sent| - |got|
    decreases n
  {
    CountersTell(p, sent, got);
    hide Between, Ring.Drop;
    if n == 0 || p.Empty() {
      assert got + [] == got;
    } else {
      DropKeeps(p, sent, got);
      NotAllGot(p, sent, got);
      ReadKeeps(p.Drop(), n - 1, sent, got + [p.First()]);
      var rest := ReadUpTo(p.Drop(), n - 1).1;
      assert got + [p.First()] + rest == got + ([p.First()] + rest);
    }
  }

  lemma NotAllGot(p: Ring, sent: seq<byte>, got: seq<byte>)
    requires Between(p, sent, got) && !p.Empty()
    ensures |got| < |sent|
  {
    CountersTell(p, sent, got);
    assert |got| == |sent| ==> got == sent;
  }

  // ----- any interleaving of readers and writers

  /** One stretch under the lock. */
  datatype Stretch = Write(src: seq<byte>) | Read(n: nat) | Close(writable: bool)

  datatype History = History(ring: Ring, sent: seq<byte>, got: seq<byte>)

  function Fresh(): History {
    History(Ring(seq(PIPESIZE, _ => 0), 0, 0, true, true), [], [])
  }

  function Do(h: History, s: Stretch): (r: History)
    requires h.ring.Shaped()
    ensures r.ring.Shaped()
  {
    match s
    case Write(src) => var w := WriteFrom(h.ring, src); History(w.0, h.sent + src[..w.1], h.got)
    case Read(n) => var r := ReadUpTo(h.ring, n); History(r.0, h.sent, h.got + r.1)
    case Close(writable) =>
      h.(ring := if writable then h.ring.(writeopen := false) else h.ring.(readopen := false))
  }

  function After(run: seq<Stretch>): (h: History)
    ensures h.ring.Shaped()
    decreases run
  {
    if run == [] then Fresh() else Do(After(run[..|run| - 1]), run[|run| - 1])
  }

  lemma DoKeeps(h: History, s: Stretch)
    requires Between(h.ring, h.sent, h.got)
    ensures var r := Do(h, s); Between(r.ring, r.sent, r.got)
  {
    hide WriteFrom, ReadUpTo;
    match s
    case Write(src) => WriteKeeps(h.ring, src, h.sent, h.got);
    case Read(n) => ReadKeeps(h.ring, n, h.sent, h.got);
    case Close(_) =>
      var r := Do(h, s);
      assert forall k :: |r.got| <= k < |r.sent| ==> Kept(h.ring, h.sent, k) ==> Kept(r.ring, r.sent, k);
  }

  lemma {:induction false} RunKeeps(run: seq<Stretch>)
    ensures var h := After(run); Between(h.ring, h.sent, h.got)
    decreases run
  {
    hide Between, Do;
    if run == [] {
      assert Between(Fresh().ring, [], []) by { FreshIs(); }
    } else {
      RunKeeps(run[..|run| - 1]);
      DoKeeps(After(run[..|run| - 1]), run[|run| - 1]);
    }
  }

  lemma FreshIs()
    ensures Between(Fresh().ring, Fresh().sent, Fresh().got)
  {}

  /** First in, first out, over every run: what was delivered followed by what is buffered
      is what was written, and never more than 512 bytes are between the counters. */
  lemma Fifo(run: seq<Stretch>)
    ensures var h := After(run);
            && h.sent == h.got + Buffered(h.ring)
            && (h.ring.nwrite - h.ring.nread) % 0x1_0000_0000 == |Buffered(h.ring)| <= 512
            && h.ring.nread == |h.got| % 0x1_0000_0000 && h.ring.nwrite == |h.sent| % 0x1_0000_0000
  {
    hide After;
    RunKeeps(run);
    var h := After(run);
    BufferedIs(h.ring, h.sent, h.got);
    CountersTell(h.ring, h.sent, h.got);
  }

  // ----- the pipe as the kernel holds it

  datatype Outcome = Done | Sleep | Fail

  class Channel {
    const data: array<byte>
    var nread: nat
    var nwrite: nat
    var readopen: bool
    var writeopen: bool
    ghost var sent: seq<byte>
    ghost var got: seq<byte>

    ghost function Now(): Ring
      reads this, data
    {
      Ring(data[..], nread, nwrite, readopen, writeopen)
    }

    ghost predicate Valid()
      reads this, data
    {
      Now().Shaped() && Between(Now(), sent, got)
    }

    constructor ()
      ensures Valid() && fresh(data) && sent == [] && got == [] && readopen && writeopen
    {
      data := new byte[PIPESIZE];
      nread, nwrite, readopen, writeopen := 0, 0, true, true;
      sent, got := [], [];
    }

    /** pipewrite from byte i on, until it returns or goes to sleep: every byte up to the
        new i is written, and it sleeps or fails only on a full ring. */
    method Write(addr: seq<byte>, from: nat, killed: bool) returns (i: nat, out: Outcome)
      requires Valid() && from <= |addr|
      modifies this`nwrite, this`sent, data
      ensures Valid() && from <= i <= |addr| && sent == old(sent) + addr[from..i]
      ensures (Now(), i - from) == WriteFrom(old(Now()), addr[from..])
      ensures out == Done <==> i == |addr|
      ensures out != Done ==> |sent| - |got| == PIPESIZE && (out == Fail <==> !readopen || killed)
    {
      hide Between, Ring.Put, Ring.Full, Ring.Shaped, WriteFrom, Same32;
      i, out := from, Done;
      assert addr[from..from] == [];
      while i < |addr|
        invariant from <= i <= |addr| && Valid() && sent == old(sent) + addr[from..i]
        invariant old(Now()).Shaped()
        invariant WriteFrom(old(Now()), addr[from..]) == Later(WriteFrom(Now(), addr[i..]), i - from)
        decreases |addr| - i
      {
        CountersTell(Now(), sent, got);
        FullTest(Now());
        if Same32(nwrite, nread + PIPESIZE) {
          WriteStops(Now(), addr[i..]);
          out := if !readopen || killed then Fail else Sleep;
          return;
        }
        ghost var before := Now();
        WriteGoesOn(before, addr, i);
        PutKeeps(before, sent, got, addr[i]);
        PutPlace(before);
        PutIs(before, addr[i]);
        data[nwrite % PIPESIZE] := addr[i];
        nwrite := (nwrite + 1) % WRAP;
        sent := sent + [addr[i]];
        i := i + 1;
        assert Now() == before.Put(addr[i - 1]);
        assert addr[from..i] == addr[from..i - 1] + [addr[i - 1]];
      }
      WriteStops(Now(), addr[i..]);
    }

    /** piperead from its call or from waking up: it sleeps only on an empty pipe that may
        still be written, and otherwise delivers the oldest bytes there are, up to n. */
    method Read(n: nat, killed: bool) returns (bytes: seq<byte>, out: Outcome)
      requires Valid()
      modifies this`nread, this`got
      ensures Valid() && got == old(got) + bytes
      ensures out == Done ==> (Now(), bytes) == ReadUpTo(old(Now()), n)
      ensures out == Done ==> |bytes| == if n <= |sent| - |old(got)| then n else |sent| - |old(got)|
      ensures out != Done <==> sent == old(got) && writeopen
      ensures out != Done ==> bytes == [] && Now() == old(Now()) && (out == Fail <==> killed)
    {
      hide Between, Ring.Drop;
      bytes := [];
      CountersTell(Now(), sent, got);
      if nread == nwrite && writeopen {
        out := if killed then Fail else Sleep;
        return;
      }
      out := Done;
      ReadKeeps(Now(), n, sent, got);
      var i := 0;
      assert Led([], ReadUpTo(Now(), n)) == ReadUpTo(Now(), n) by {
        assert [] + ReadUpTo(Now(), n).1 == ReadUpTo(Now(), n).1;
      }
      while i < n && nread != nwrite
        invariant 0 <= i <= n && |bytes| == i && Valid() && got == old(got) + bytes
        invariant old(Now()).Shaped()
        invariant Led(bytes, ReadUpTo(Now(), n - i)) == ReadUpTo(old(Now()), n)
        decreases n - i
      {
        DropKeeps(Now(), sent, got);
        ghost var before := Now();
        assert Led(bytes, ReadUpTo(before, n - i)) == Led(bytes + [before.First()], ReadUpTo(before.Drop(), n - i - 1)) by {
          var r := ReadUpTo(before.Drop(), n - i - 1).1;
          assert bytes + ([before.First()] + r) == bytes + [before.First()] + r;
        }
        bytes := bytes + [data[nread % PIPESIZE]];
        got := got + [data[nread % PIPESIZE]];
        nread := (nread + 1) % WRAP;
        i := i + 1;
        assert Now() == before.Drop() by { DropIs(before); }
      }
      assert ReadUpTo(Now(), n - i) == (Now(), []);
      assert bytes + [] == bytes;
    }

    /** pipeclose; the pipe is freed once both ends are closed. */
    method Close(writable: bool) returns (freed: bool)
      requires Valid()
      modifies this`readopen, this`writeopen
      ensures Valid() && readopen == (old(readopen) && writable) && writeopen == (old(writeopen) && !writable)
      ensures freed <==> !readopen && !writeopen
    {
      DoKeeps(History(Now(), sent, got), Stretch.Close(writable));
      if writable {
        writeopen := false;
      } else {
        readopen := false;
      }
      freed := !readopen && !writeopen;
    }
  }

  /** Equality of unsigned 32-bit numbers. */
  predicate Same32(a: nat, b: nat) { a % WRAP == b % WRAP }

  function Later(r: (Ring, nat), k: nat): (Ring, nat) { (r.0, r.1 + k) }

  function Led(first: seq<byte>, r: (Ring, seq<byte>)): (Ring, seq<byte>) { (r.0, first + r.1) }

  lemma FullTest(p: Ring)
    requires p.Shaped()
    ensures Same32(p.nwrite, p.nread + PIPESIZE) == p.Full()
  {}

  lemma WriteStops(p: Ring, src: seq<byte>)
    requires p.Shaped() && (src == [] || p.Full())
    ensures WriteFrom(p, src) == (p, 0)
  {}

  lemma WriteGoesOn(p: Ring, addr: seq<byte>, i: nat)
    requires p.Shaped() && i < |addr| && !p.Full()
    ensures WriteFrom(p, addr[i..]) == Later(WriteFrom(p.Put(addr[i]), addr[i + 1..]), 1)
  {
    hide Ring.Put, Ring.Full;
    assert addr[i..][1..] == addr[i + 1..];
  }

  lemma PutPlace(p: Ring)
    requires p.Shaped()
    ensures p.nwrite % PIPESIZE < |p.data|
  {}

  lemma PutIs(p: Ring, c: byte)
    requires p.Shaped()
    ensures p.Put(c) == p.(data := p.data[p.nwrite % PIPESIZE := c], nwrite := (p.nwrite + 1) % WRAP)
  {}

  lemma DropIs(p: Ring)
    requires p.Shaped()
    ensures p.Drop() == p.(nread := (p.nread + 1) % WRAP)
  {}
}
