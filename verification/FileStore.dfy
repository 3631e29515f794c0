/** The xv6 file store operations on blocks and files, updating the store in place. */
module FileStore {
  import opened Basics
  import opened FsState
  import opened FsMap

  /** What a write returns: an error code, the number of bytes, a kernel panic because every bit
      of the bitmap is set, or the need to transfer a block that the disk does not have. */
  datatype WriteResult = Refused | Written(n: nat) | Panicked(n: nat) | PastDisk

  const MAXBYTES := MAXFILE * BSIZE
  const UINT_LIMIT := 0x1_0000_0000

  // ----- a write in progress

  /** Bytes off0, .., off - 1 of file i have been written, nothing else has changed. */
  ghost predicate Writing(fs0: Fs, fs: Fs, i: nat, off0: nat, off: nat, src: seq<byte>)
    requires Shape(fs0)
  {
    && Core(fs) && |fs.inodes| == |fs0.inodes| && i < |fs0.inodes| && fs.size == fs0.size && Grown(fs0, fs)
    && off0 <= off <= off0 + |src| && off <= MAXBYTES
    && (forall j :: 0 <= j < |fs0.inodes| ==> fs.inodes[j].size == fs0.inodes[j].size)
    && (forall n :: 0 <= n < MAXFILE && off0 < (n + 1) * BSIZE && n * BSIZE < off ==> Target(fs, i, SlotOf(n)) != 0)
    && forall j, p :: 0 <= j < |fs0.inodes| && 0 <= p < MAXFILE * BSIZE ==>
         FileByte(fs, j, p) == if j == i && off0 <= p < off then src[p - off0] else FileByte(fs0, j, p)
  }

  /** Looking up, possibly allocating, the block of `off` keeps the write where it was. */
  lemma WritingMapped(fs0: Fs, fs: Fs, fs': Fs, i: nat, off0: nat, off: nat, src: seq<byte>)
    requires Shape(fs0) && Writing(fs0, fs, i, off0, off, src)
    requires Core(fs') && SameFiles(fs, fs') && Grown(fs, fs')
    ensures Writing(fs0, fs', i, off0, off, src)
  {
    hide Target, FileByte, Owned;
    GrownTwice(fs0, fs, fs');
    forall n | 0 <= n < MAXFILE && off0 < (n + 1) * BSIZE && n * BSIZE < off ensures Target(fs', i, SlotOf(n)) != 0 {
      assert IsSlot(fs, i, SlotOf(n));
    }
  }

  lemma WritingStep(fs0: Fs, fs: Fs, i: nat, off0: nat, off: nat, src: seq<byte>, m: nat)
    requires Shape(fs0) && Writing(fs0, fs, i, off0, off, src)
    requires off < MAXBYTES && off % BSIZE + m <= BSIZE && m > 0 && off + m <= off0 + |src|
    requires Target(fs, i, SlotOf(off / BSIZE)) != 0
    ensures Target(fs, i, SlotOf(off / BSIZE)) < fs.size
    ensures Writing(fs0, Write(fs, i, off / BSIZE, off % BSIZE, src[off - off0..off - off0 + m]), i, off0, off + m, src)
  {
    hide Target, FileByte, Owned, Write;
    var n, o, data := off / BSIZE, off % BSIZE, src[off - off0..off - off0 + m];
    WriteTargets(fs, i, n, o, data);
    WriteKeepsCore(fs, i, n, o, data);
    var fs' := Write(fs, i, n, o, data);
    WriteShape(fs, i, n, o, data);
    forall j, p | 0 <= j < |fs0.inodes| && 0 <= p < MAXFILE * BSIZE
      ensures FileByte(fs', j, p) == if j == i && off0 <= p < off + m then src[p - off0] else FileByte(fs0, j, p)
    {
      WriteBytes(fs, i, n, o, data, j, p);
    }
    forall k | 0 <= k < MAXFILE && off0 < (k + 1) * BSIZE && k * BSIZE < off + m ensures Target(fs', i, SlotOf(k)) != 0 {
      assert IsSlot(fs, i, SlotOf(k));
      assert k == n || k * BSIZE < off;
    }
    forall j, k | IsSlot(fs0, j, k) && Target(fs0, j, k) != 0 ensures Target(fs', j, k) == Target(fs0, j, k) {
      assert IsSlot(fs, j, k);
    }
  }

  lemma WriteShape(fs: Fs, i: nat, n: nat, o: nat, data: seq<byte>)
    requires Shape(fs) && i < |fs.inodes| && n < MAXFILE && Target(fs, i, SlotOf(n)) < fs.size && o + |data| <= BSIZE
    ensures var fs' := Write(fs, i, n, o, data); fs'.inodes == fs.inodes && fs'.size == fs.size
  {}

  function SetSize(fs: Fs, i: nat, size: nat): Fs
    requires i < |fs.inodes|
  {
    fs.(inodes := fs.inodes[i := fs.inodes[i].(size := size)])
  }

  lemma SetSizeTargets(fs: Fs, i: nat, size: nat)
    requires Core(fs) && i < |fs.inodes|
    ensures var fs' := SetSize(fs, i, size);
            && Core(fs') && (forall j, k :: IsSlot(fs, j, k) ==> Target(fs', j, k) == Target(fs, j, k))
            && (forall j, p :: 0 <= j < |fs.inodes| && 0 <= p < MAXFILE * BSIZE ==> FileByte(fs', j, p) == FileByte(fs, j, p))
  {
    hide Word;
    var fs' := SetSize(fs, i, size);
    forall c | fs.dataStart <= c < fs.size && fs.used[c] ensures HasOwner(fs', c) {
      assert HasOwner(fs, c);
      var j, l :| IsSlot(fs, j, l) && Target(fs, j, l) == c;
      assert IsSlot(fs', j, l) && Target(fs', j, l) == c;
    }
    assert forall j, k :: IsSlot(fs', j, k) ==> IsSlot(fs, j, k) && Target(fs', j, k) == Target(fs, j, k);
  }

  /** With its final size set, the written file and all others satisfy the invariant. */
  lemma WritingDone(fs0: Fs, fs: Fs, i: nat, off0: nat, off: nat, src: seq<byte>)
    requires Inv(fs0) && Writing(fs0, fs, i, off0, off, src) && off0 <= fs0.inodes[i].size
    ensures Inv(SetSize(fs, i, Max(fs0.inodes[i].size, off)))
  {
    hide Target, FileByte, Owned, SetSize;
    var size := Max(fs0.inodes[i].size, off);
    SetSizeTargets(fs, i, size);
    var fs' := SetSize(fs, i, size);
    SetSizeSizes(fs, i, size);
    forall j | 0 <= j < |fs0.inodes| ensures Sized(fs', j) {
      assert Sized(fs0, j);
      forall n | 0 <= n < MAXFILE && n * BSIZE < fs'.inodes[j].size ensures Target(fs', j, SlotOf(n)) != 0 {
        assert IsSlot(fs0, j, SlotOf(n)) && IsSlot(fs, j, SlotOf(n));
        if n * BSIZE < fs0.inodes[j].size {
          assert Target(fs0, j, SlotOf(n)) != 0;
        }
      }
      forall p | fs'.inodes[j].size <= p < MAXFILE * BSIZE ensures FileByte(fs', j, p) == 0 {
        assert FileByte(fs0, j, p) == 0;
      }
    }
  }

  lemma SetSizeSizes(fs: Fs, i: nat, size: nat)
    requires Shape(fs) && i < |fs.inodes|
    ensures var fs' := SetSize(fs, i, size);
            && Shape(fs') && |fs'.inodes| == |fs.inodes|
            && forall j :: 0 <= j < |fs.inodes| ==> fs'.inodes[j].size == if j == i then size else fs.inodes[j].size
  {}

  // ----- truncation in progress

  /** Slots lo, .., hi - 1 of a file point to distinct used data blocks, so one more can be freed. */
  lemma FreeOneMore(fs: Fs, i: nat, S: set<nat>, k: nat)
    requires Core(fs) && i < |fs.inodes| && k < NSLOTS && Target(fs, i, k) != 0
    requires forall t :: t in S ==> exists l :: 0 <= l < NSLOTS && l != k && Target(fs, i, l) == t
    ensures var t := Target(fs, i, k);
            && t < fs.size && fs.used[t] && t !in S && Shape(Freed(fs, S)) && Freed(fs, S).used[t]
            && Freed(Freed(fs, S), {t}) == Freed(fs, S + {t})
  {
    hide Target;
    var t := Target(fs, i, k);
    assert IsSlot(fs, i, k);
    forall l | 0 <= l < NSLOTS && l != k ensures Target(fs, i, l) != t {
      assert IsSlot(fs, i, l);
    }
    FreedTwice(fs, S, t);
  }

  lemma TargetsSplit(fs: Fs, i: nat)
    requires Shape(fs) && i < |fs.inodes|
    ensures Targets(fs, i, 0, NSLOTS)
         == Targets(fs, i, 0, NDIRECT) + Targets(fs, i, NDIRECT + 1, NSLOTS) + Targets(fs, i, NDIRECT, NDIRECT + 1)
  {
    hide Target;
    var (A, B, C, D) := (Targets(fs, i, 0, NSLOTS), Targets(fs, i, 0, NDIRECT), Targets(fs, i, NDIRECT + 1, NSLOTS),
                         Targets(fs, i, NDIRECT, NDIRECT + 1));
    forall t ensures t in A <==> t in B + C + D {}
  }

  lemma NoEntries(fs: Fs, i: nat)
    requires Shape(fs) && i < |fs.inodes| && fs.inodes[i].addrs[NDIRECT] == 0
    ensures Targets(fs, i, NDIRECT + 1, NSLOTS) == {} && Targets(fs, i, NDIRECT, NDIRECT + 1) == {}
  {}

  class Store {
    var size: nat
    var dataStart: nat
    var used: seq<bool>
    var disk: seq<Block>
    var inodes: seq<Inode>

    function State(): Fs
      reads this
    {
      Fs(size, dataStart, used, disk, inodes)
    }

    /** Marks the first clear bit of the bitmap, be it that of a block or a spare one;
        panics when every bit is set. */
    method Balloc() returns (r: Option<nat>)
      requires Shape(State())
      modifies `used
      ensures var b := FirstClear(old(used), 0); r == if b == |old(used)| then None else Some(b)
      ensures match r
              case Some(b) => b < |old(used)| && !old(used)[b] && (forall c :: 0 <= c < b ==> old(used)[c]) && used == old(used)[b := true]
              case None => used == old(used) && forall c :: 0 <= c < |used| ==> used[c]
    {
      var b := 0;
      while b < size
        invariant 0 <= b <= |used| && b % BPB == 0 && used == old(used)
        invariant forall c :: 0 <= c < b ==> used[c]
      {
        var bi := 0;
        while bi < BPB
          invariant 0 <= bi <= BPB && used == old(used)
          invariant forall c :: 0 <= c < b + bi ==> used[c]
        {
          if !used[b + bi] {
            used := used[b + bi := true];
            return Some(b + bi);
          }
          bi := bi + 1;
        }
        b := b + BPB;
      }
      return None;
    }

    /** Zeroes a block and marks it free; panics when it already was free. */
    method Bfree(b: nat) returns (ok: bool)
      requires Shape(State()) && b < size
      modifies `used, `disk
      ensures ok == old(used)[b]
      ensures ok ==> State() == Freed(old(State()), {b})
    {
      disk := disk[b := ZeroBlock()];
      if !used[b] {
        return false;
      }
      used := used[b := false];
      ghost var fs := Freed(old(State()), {b});
      assert used == fs.used && disk == fs.disk;
      return true;
    }

    /** The block behind logical block `bn` of file i, allocated if there is none. */
    method Bmap(i: nat, bn: nat) returns (r: MapResult)
      requires Shape(State()) && i < |inodes|
      modifies `used, `disk, `inodes
      ensures (State(), r) == MapBlock(old(State()), i, bn)
    {
      hide Target, Word, SetWord;
      if bn < NDIRECT {
        r := MapPointer(i, bn);
        return;
      }
      var j := bn - NDIRECT;
      if j < NINDIRECT {
        r := MapPointer(i, NDIRECT);
        if r.NoBlocks? { return; }
        if r.addr >= size { return OffDisk; }
        var x := r.addr;
        var buf := disk[x];
        var entry := Word(buf, j);
        if entry == 0 {
          FirstClearTells(State());
          var b := Balloc();
          if b.None? { return NoBlocks; }
          entry := b.value;
          buf := SetWord(buf, j, entry);
          disk := disk[x := buf];
        }
        return Mapped(entry);
      }
      return TooFar;
    }

    /** A pointer of the inode, allocated if it is empty. */
    method MapPointer(i: nat, k: nat) returns (r: MapResult)
      requires Shape(State()) && i < |inodes| && k <= NDIRECT
      modifies `used, `inodes
      ensures (State(), r) == MapSlot(old(State()), i, k)
    {
      var addr := inodes[i].addrs[k];
      if addr == 0 {
        var b := Balloc();
        if b.None? { return NoBlocks; }
        addr := b.value;
        inodes := inodes[i := inodes[i].(addrs := inodes[i].addrs[k := addr])];
      }
      return Mapped(addr);
    }

    /** Frees the block a slot of file i points to, S having been freed before. */
    method FreeSlot(b: nat, ghost fs: Fs, ghost S: set<nat>, ghost i: nat, ghost k: nat)
      requires Core(fs) && i < |fs.inodes| && k < NSLOTS && b == Target(fs, i, k) != 0
      requires forall t :: t in S ==> exists l :: 0 <= l < NSLOTS && l != k && Target(fs, i, l) == t
      requires Shape(State()) && State() == Freed(fs, S).(inodes := inodes)
      modifies `used, `disk
      ensures Shape(State()) && State() == Freed(fs, S + {b}).(inodes := inodes)
    {
      hide Target, Owned, Freed;
      FreeOneMore(fs, i, S, k);
      FreedFields(fs, S);
      FreedFields(fs, S + {b});
      FreedIgnoresInodes(Freed(fs, S), inodes, {b});
      var ok := Bfree(b);
      assert ok;
    }

    /** The first loop of itrunc: frees the directly addressed blocks. */
    method TruncDirect(i: nat)
      requires Core(State()) && i < |inodes|
      modifies `used, `disk, `inodes
      ensures Shape(State())
      ensures State() == Freed(old(State()), Targets(old(State()), i, 0, NDIRECT)).(inodes := Cleared(old(State()), i, NDIRECT))
    {
      hide Target, Owned, Freed, Targets;
      ghost var fs, S := State(), {};
      FreedNothing(fs, i);
      var k := 0;
      while k < NDIRECT
        invariant 0 <= k <= NDIRECT && S == Targets(fs, i, 0, k)
        invariant Shape(State()) && State() == Freed(fs, S).(inodes := Cleared(fs, i, k))
      {
        DirectTarget(fs, i, k);
        TargetsStep(fs, i, 0, k);
        ClearedStep(fs, i, k);
        if inodes[i].addrs[k] != 0 {
          FreeSlot(inodes[i].addrs[k], fs, S, i, k);
          S := S + {inodes[i].addrs[k]};
          inodes := inodes[i := inodes[i].(addrs := inodes[i].addrs[k := 0])];
        }
        k := k + 1;
      }
    }

    /** The second part: frees the blocks listed in the indirect block, then that block. */
    method TruncIndirect(i: nat, ghost fs: Fs)
      requires Core(fs) && i < |fs.inodes| == |inodes| && fs.inodes[i].addrs[NDIRECT] != 0
      requires Shape(State())
      requires State() == Freed(fs, Targets(fs, i, 0, NDIRECT)).(inodes := Cleared(fs, i, NDIRECT))
      modifies `used, `disk
      ensures Shape(State())
      ensures State() == Freed(fs, Targets(fs, i, 0, NSLOTS)).(inodes := inodes)
    {
      hide Target, Owned, Freed, Targets, Word;
      ghost var S := Targets(fs, i, 0, NDIRECT);
      DirectTarget(fs, i, NDIRECT);
      FreeOneMore(fs, i, S, NDIRECT);
      FreedFields(fs, S);
      assert inodes[i].addrs[NDIRECT] == fs.inodes[i].addrs[NDIRECT];
      FreedDisk(fs, S, inodes[i].addrs[NDIRECT]);
      var a := disk[inodes[i].addrs[NDIRECT]];
      TargetsNone(fs, i, NDIRECT + 1);
      var j := 0;
      while j < NINDIRECT
        invariant 0 <= j <= NINDIRECT
        invariant S == Targets(fs, i, 0, NDIRECT) + Targets(fs, i, NDIRECT + 1, NDIRECT + 1 + j)
        invariant Shape(State()) && State() == Freed(fs, S).(inodes := inodes)
      {
        EntryTarget(fs, i, j);
        TargetsStep(fs, i, NDIRECT + 1, NDIRECT + 1 + j);
        if Word(a, j) != 0 {
          FreeSlot(Word(a, j), fs, S, i, NDIRECT + 1 + j);
          S := S + {Word(a, j)};
        }
        j := j + 1;
      }
      FreeSlot(inodes[i].addrs[NDIRECT], fs, S, i, NDIRECT);
      TargetsStep(fs, i, NDIRECT, NDIRECT);
      TargetsNone(fs, i, NDIRECT);
      TargetsSplit(fs, i);
      assert S + {inodes[i].addrs[NDIRECT]} == Targets(fs, i, 0, NSLOTS);
    }

    /** Discards file i: its blocks, and only they, become free and zero. */
    method Itrunc(i: nat)
      requires Inv(State()) && i < |inodes|
      modifies `used, `disk, `inodes
      ensures State() == Truncated(old(State()), i)
      ensures Inv(State())
    {
      hide Target, Owned, Freed, Targets, Sized, Truncated;
      ghost var fs := State();
      TruncDirect(i);
      DirectTarget(fs, i, NDIRECT);
      TargetsSplit(fs, i);
      if inodes[i].addrs[NDIRECT] != 0 {
        TruncIndirect(i, fs);
        inodes := inodes[i := inodes[i].(addrs := inodes[i].addrs[NDIRECT := 0])];
      } else {
        NoEntries(fs, i);
      }
      inodes := inodes[i := inodes[i].(size := 0)];
      AllCleared(fs, i, inodes);
      TruncateKeeps(fs, i);
    }

    /** Reads up to n bytes at `off`; reading never changes the store. */
    method Readi(i: nat, off: nat, n: nat) returns (ok: bool, dst: seq<byte>)
      requires Inv(State()) && i < |inodes| && off < UINT_LIMIT && n < UINT_LIMIT
      modifies `used, `disk, `inodes
      ensures State() == old(State())
      ensures ok <==> off <= inodes[i].size && off + n < UINT_LIMIT
      ensures ok ==> |dst| == Min(n, inodes[i].size - off) && off + |dst| <= MAXBYTES
                     && forall p :: 0 <= p < |dst| ==> dst[p] == FileByte(State(), i, off + p)
    {
      hide Target, FileByte, Owned;
      if off > inodes[i].size || off + n >= UINT_LIMIT {
        return false, [];
      }
      assert Sized(State(), i);
      var n' := if off + n > inodes[i].size then inodes[i].size - off else n;
      ghost var fs := State();
      dst := [];
      var tot, at := 0, off;
      while tot < n'
        invariant 0 <= tot <= n' && at == off + tot && |dst| == tot && State() == fs && off + n' <= MAXBYTES
        invariant forall p :: 0 <= p < tot ==> dst[p] == FileByte(fs, i, off + p)
      {
        assert Sized(fs, i) && (at / BSIZE) * BSIZE <= at;
        MapBlockOutcome(fs, i, at / BSIZE);
        var b := Bmap(i, at / BSIZE);
        var m := Min(n' - tot, BSIZE - at % BSIZE);
        ReadBytes(fs, i, at, m);
        dst := dst + disk[b.addr][at % BSIZE..at % BSIZE + m];
        assert forall p :: tot <= p < tot + m ==> dst[p] == FileByte(fs, i, off + p);
        tot, at := tot + m, at + m;
      }
      return true, dst;
    }

    /** Writes n bytes of src at `off`, growing the file as needed: the written range
        holds src, every other byte of every file is as before, and the size is the
        larger of the old one and the end of the write.  It succeeds exactly when the disk
        has as many free blocks as the range is missing; else it panics if no bit is clear,
        the bytes before that block written and nothing else, and otherwise runs off the disk and breaks the ownership of blocks. */
    method Writei(i: nat, src: seq<byte>, off: nat, n: nat) returns (r: WriteResult)
      requires Inv(State()) && i < |inodes| && off < UINT_LIMIT && n < UINT_LIMIT && n <= |src|
      modifies `used, `disk, `inodes
      ensures r.Refused? <==> off > old(inodes)[i].size || off + n >= UINT_LIMIT
      ensures r.Refused? ==> State() == old(State())
      ensures !r.Refused? ==> off <= MAXBYTES && Last(off, n) <= MAXFILE
      ensures !r.Refused? ==> (r.Written? <==> old(Demand(State(), i, off / BSIZE, Last(off, n)) <= Free(State())))
      ensures !r.Refused? && !r.Written? ==> (r.PastDisk? <==> old(Spare(State())) > 0)
      ensures Shape(State()) && (Core(State()) <==> !r.PastDisk?)
      ensures r.Panicked? ==> r.n <= n && Writing(old(State()), State(), i, off, off + r.n, src[..Min(n, MAXBYTES - off)])
      ensures r.Written? ==>
                && r.n == Min(n, MAXBYTES - off) && Inv(State()) && |inodes| == |old(inodes)|
                && (forall j :: 0 <= j < |inodes| ==>
                      inodes[j].size == if j == i then Max(old(inodes)[i].size, off + r.n) else old(inodes)[j].size)
                && (forall j, p :: 0 <= j < |inodes| && 0 <= p < MAXFILE * BSIZE ==>
                      FileByte(State(), j, p) == if j == i && off <= p < off + r.n then src[p - off] else old(FileByte(State(), j, p)))
    {
      hide Target, FileByte, Owned, Writing, Budget, Patch, Demand, Needs, MapBlock, Found, Spare, Free;
      if off > inodes[i].size || off + n >= UINT_LIMIT {
        return Refused;
      }
      assert Sized(State(), i);
      var n' := if off + n > MAXBYTES then MAXBYTES - off else n;
      ghost var fs, data, hi := State(), src[..n'], Last(off, n);
      WritingStart(fs, i, off, data);
      BudgetStart(fs, i, off, n);
      var tot, at := 0, off;
      while tot < n'
        invariant 0 <= tot <= n' && at == off + tot
        invariant Writing(fs, State(), i, off, at, data) && Budget(fs, State(), i, off, at, hi)
      {
        WritingFacts(fs, State(), i, off, at, data);
        ghost var fs1, bn := State(), at / BSIZE;
        WriteMaps(fs, fs1, i, off, at, data, hi);
        var b := Bmap(i, at / BSIZE);
        if b.NoBlocks? { return Panicked(tot); }
        if b.OffDisk? || b.addr >= size { return PastDisk; }
        WritingFacts(fs, State(), i, off, at, data);
        ghost var fs2 := State();
        var m := Min(n' - tot, BSIZE - at % BSIZE);
        WritingStep(fs, State(), i, off, at, data, m);
        SliceOfPrefix(src, n', tot, tot + m);
        disk := disk[b.addr := Patch(disk[b.addr], at % BSIZE, src[tot..tot + m])];
        BudgetStep(fs, fs1, fs2, i, off, at, hi, b, m, src[tot..tot + m]);
        tot, at := tot + m, at + m;
      }
      WritingFacts(fs, State(), i, off, at, data);
      BudgetKept(fs, State(), i, off, n, data);
      WritingDone(fs, State(), i, off, at, data);
      SetSizeTargets(State(), i, Max(fs.inodes[i].size, at));
      SetSizeSizes(State(), i, Max(fs.inodes[i].size, at));
      SameSize(State(), i);
      if n' > 0 && at > inodes[i].size {
        inodes := inodes[i := inodes[i].(size := at)];
      }
      return Written(n');
    }
  }

  /** One past the last logical block a write of n bytes at off touches, clipped as writei clips. */
  function Last(off: nat, n: nat): nat
    requires off <= MAXBYTES
  {
    var n' := if off + n > MAXBYTES then MAXBYTES - off else n;
    if n' == 0 then off / BSIZE else (off + n' - 1) / BSIZE + 1
  }

  /** What the write has taken from the free blocks is what it was missing for the part
      that is done. */
  ghost predicate Budget(fs0: Fs, fs: Fs, i: nat, off0: nat, off: nat, hi: nat)
    requires Shape(fs0) && i < |fs0.inodes|
  {
    && Shape(fs) && i < |fs.inodes| && hi <= MAXFILE && off / BSIZE <= hi && fs.size == fs0.size
    && Free(fs) - Demand(fs, i, off / BSIZE, hi) == Free(fs0) - Demand(fs0, i, off0 / BSIZE, hi)
    && Spare(fs) == Spare(fs0)
  }

  lemma BudgetStart(fs: Fs, i: nat, off: nat, n: nat)
    requires Shape(fs) && i < |fs.inodes| && off <= MAXBYTES
    ensures Last(off, n) <= MAXFILE && Budget(fs, fs, i, off, off, Last(off, n))
  {}

  /** In the middle of the write the next block needs no more than what is left to ask for. */
  lemma BudgetAsks(fs0: Fs, fs: Fs, i: nat, off0: nat, off: nat, hi: nat)
    requires Shape(fs0) && Core(fs) && i < |fs0.inodes| && Budget(fs0, fs, i, off0, off, hi) && off / BSIZE < hi
    ensures i < |fs.inodes| && hi <= MAXFILE
    ensures Needs(fs, i, off / BSIZE) > Free(fs) ==> Demand(fs0, i, off0 / BSIZE, hi) > Free(fs0)
    ensures Spare(fs) == Spare(fs0)
  {
    hide Owned, Needs, Free, Spare, Demand;
    DemandAtLeast(fs, i, off / BSIZE, hi);
  }

  /** What mapping the next block means for the write: it goes on, or its range asks for more
      than is free. */
  lemma WriteMaps(fs0: Fs, fs: Fs, i: nat, off0: nat, off: nat, src: seq<byte>, hi: nat)
    requires Shape(fs0) && Core(fs) && i < |fs0.inodes| == |fs.inodes| && off / BSIZE < hi
    requires Writing(fs0, fs, i, off0, off, src) && Budget(fs0, fs, i, off0, off, hi)
    ensures hi <= MAXFILE
    ensures var (fs', r) := MapBlock(fs, i, off / BSIZE);
            var enough := Demand(fs0, i, off0 / BSIZE, hi) <= Free(fs0);
            match r
            case Mapped(b) => if b < fs.size
                              then Core(fs') && Found(fs, fs', i, off / BSIZE, r, Needs(fs, i, off / BSIZE)) && Writing(fs0, fs', i, off0, off, src)
                                   && b == Target(fs', i, SlotOf(off / BSIZE)) != 0
                              else !enough && Spare(fs0) > 0 && !Core(fs')
            case OffDisk => !enough && Spare(fs0) > 0 && !Core(fs')
            case NoBlocks => !enough && Spare(fs0) <= 0 && Core(fs') && Writing(fs0, fs', i, off0, off, src)
            case TooFar => false
  {
    hide Target, FileByte, Owned, Writing, Demand, Needs, MapBlock, Found, Spare, Free;
    var bn := off / BSIZE;
    BudgetAsks(fs0, fs, i, off0, off, hi);
    MapBlockOutcome(fs, i, bn);
    var (fs', r) := MapBlock(fs, i, bn);
    if Needs(fs, i, bn) <= Free(fs) {
      FoundTarget(fs, fs', i, bn, r, Needs(fs, i, bn));
    }
    if Core(fs') {
      WritingMapped(fs0, fs, fs', i, off0, off, src);
    }
  }

  lemma BudgetStep(fs0: Fs, fs1: Fs, fs2: Fs, i: nat, off0: nat, off: nat, hi: nat, r: MapResult, m: nat, data: seq<byte>)
    requires Shape(fs0) && Core(fs1) && Core(fs2) && i < |fs0.inodes| == |fs1.inodes| && Budget(fs0, fs1, i, off0, off, hi)
    requires off / BSIZE < hi <= MAXFILE && Found(fs1, fs2, i, off / BSIZE, r, Needs(fs1, i, off / BSIZE))
    requires |fs2.inodes| == |fs1.inodes| && |data| == m > 0 && off % BSIZE + m <= BSIZE
    ensures r.addr < fs2.size && Budget(fs0, fs2.(disk := fs2.disk[r.addr := Patch(fs2.disk[r.addr], off % BSIZE, data)]), i, off0, off + m, hi)
  {
    hide Owned, Needs, Demand, Grown, Target, OthersStay;
    var bn := off / BSIZE;
    DemandStep(fs1, fs2, i, bn, hi, r);
    FoundTarget(fs1, fs2, i, bn, r, Needs(fs1, i, bn));
    WriteTargets(fs2, i, bn, off % BSIZE, data);
    WriteKeepsCore(fs2, i, bn, off % BSIZE, data);
    var fs3 := Write(fs2, i, bn, off % BSIZE, data);
    forall k | 0 <= k < NSLOTS ensures Target(fs3, i, k) == Target(fs2, i, k) {
      assert IsSlot(fs2, i, k);
    }
    assert (off + m) / BSIZE == bn || (off + m) / BSIZE == bn + 1;
    DemandSame(fs2, fs3, i, (off + m) / BSIZE, hi);
  }

  lemma FoundTarget(fs: Fs, fs': Fs, i: nat, bn: nat, r: MapResult, n: nat)
    requires Shape(fs) && Shape(fs') && i < |fs.inodes| == |fs'.inodes| && bn < MAXFILE && Found(fs, fs', i, bn, r, n)
    ensures r.Mapped? && Target(fs', i, SlotOf(bn)) == r.addr != 0 && r.addr < fs.size == fs'.size
    ensures Core(fs') && SameFiles(fs, fs') && Grown(fs, fs')
  {}

  /** A finished write has found all it asked for. */
  lemma BudgetKept(fs0: Fs, fs: Fs, i: nat, off0: nat, n: nat, src: seq<byte>)
    requires Shape(fs0) && Core(fs) && i < |fs0.inodes| && off0 <= MAXBYTES && |src| == Min(n, MAXBYTES - off0)
    requires Writing(fs0, fs, i, off0, off0 + |src|, src) && Budget(fs0, fs, i, off0, off0 + |src|, Last(off0, n))
    ensures Last(off0, n) <= MAXFILE && Demand(fs0, i, off0 / BSIZE, Last(off0, n)) <= Free(fs0)
  {
    hide Owned, Target, FileByte, Free, Spare;
    var (off, hi) := (off0 + |src|, Last(off0, n));
    if off / BSIZE < hi {
      assert hi == off / BSIZE + 1 && off0 < hi * BSIZE && (hi - 1) * BSIZE < off;
      DemandOfMapped(fs, i, hi - 1);
    }
  }

  lemma SliceOfPrefix(src: seq<byte>, n: nat, a: nat, b: nat)
    requires a <= b <= n <= |src|
    ensures src[..n][a..b] == src[a..b]
  {}

  lemma SameSize(fs: Fs, i: nat)
    requires i < |fs.inodes|
    ensures SetSize(fs, i, fs.inodes[i].size) == fs
  {}

  lemma ReadBytes(fs: Fs, i: nat, at: nat, m: nat)
    requires Core(fs) && i < |fs.inodes| && at < MAXBYTES && at % BSIZE + m <= BSIZE
    requires Target(fs, i, SlotOf(at / BSIZE)) != 0
    ensures var t := Target(fs, i, SlotOf(at / BSIZE));
            t < fs.size && at + m <= MAXBYTES
            && forall q :: at <= q < at + m ==> FileByte(fs, i, q) == fs.disk[t][at % BSIZE + (q - at)]
  {
    hide Target;
    assert IsSlot(fs, i, SlotOf(at / BSIZE));
    forall q | at <= q < at + m ensures FileByte(fs, i, q) == fs.disk[Target(fs, i, SlotOf(at / BSIZE))][at % BSIZE + (q - at)] {
      assert q / BSIZE == at / BSIZE && q % BSIZE == at % BSIZE + (q - at);
    }
  }

  lemma WritingStart(fs: Fs, i: nat, off: nat, src: seq<byte>)
    requires Inv(fs) && i < |fs.inodes| && off <= fs.inodes[i].size
    ensures Writing(fs, fs, i, off, off, src)
  {
    hide Target;
    assert Sized(fs, i);
  }

  lemma WritingFacts(fs0: Fs, fs: Fs, i: nat, off0: nat, off: nat, src: seq<byte>)
    requires Shape(fs0) && Writing(fs0, fs, i, off0, off, src)
    ensures Core(fs) && |fs.inodes| == |fs0.inodes| && i < |fs0.inodes| && off0 <= off <= off0 + |src| && off <= MAXBYTES
    ensures forall j :: 0 <= j < |fs0.inodes| ==> fs.inodes[j].size == fs0.inodes[j].size
    ensures forall j, p :: 0 <= j < |fs0.inodes| && 0 <= p < MAXFILE * BSIZE ==>
              FileByte(fs, j, p) == if j == i && off0 <= p < off then src[p - off0] else FileByte(fs0, j, p)
  {}

  /** Inode i with its first k direct pointers cleared. */
  function Cleared(fs: Fs, i: nat, k: nat): seq<Inode>
    requires Shape(fs) && i < |fs.inodes| && k <= NDIRECT
  {
    fs.inodes[i := fs.inodes[i].(addrs := seq(k, _ => 0) + fs.inodes[i].addrs[k..])]
  }

  lemma FreedFields(fs: Fs, S: set<nat>)
    requires Shape(fs)
    ensures var r := Freed(fs, S);
            && r.size == fs.size && r.dataStart == fs.dataStart && r.inodes == fs.inodes
            && |r.used| == |fs.used| && |r.disk| == |fs.disk| && Shape(r)
  {}

  lemma FreedNothing(fs: Fs, i: nat)
    requires Shape(fs) && i < |fs.inodes|
    ensures Freed(fs, {}).(inodes := Cleared(fs, i, 0)) == fs && Targets(fs, i, 0, 0) == {}
  {
    assert Freed(fs, {}).used == fs.used && Freed(fs, {}).disk == fs.disk;
    assert seq(0, _ => 0) + fs.inodes[i].addrs[0..] == fs.inodes[i].addrs;
  }

  lemma FreedDisk(fs: Fs, S: set<nat>, x: nat)
    requires Shape(fs) && x < fs.size && x !in S
    ensures Freed(fs, S).disk[x] == fs.disk[x]
  {}

  lemma ClearedStep(fs: Fs, i: nat, k: nat)
    requires Shape(fs) && i < |fs.inodes| && k < NDIRECT
    ensures var c := Cleared(fs, i, k);
            c[i := c[i].(addrs := c[i].addrs[k := 0])] == Cleared(fs, i, k + 1) && c[i].addrs[k] == fs.inodes[i].addrs[k]
    ensures fs.inodes[i].addrs[k] == 0 ==> Cleared(fs, i, k) == Cleared(fs, i, k + 1)
  {
    var a := fs.inodes[i].addrs;
    assert (seq(k, _ => 0) + a[k..])[k := 0] == seq(k + 1, _ => 0) + a[k + 1..];
    if a[k] == 0 {
      assert (seq(k, _ => 0) + a[k..])[k := 0] == seq(k, _ => 0) + a[k..];
    }
  }

  lemma AllCleared(fs: Fs, i: nat, inodes: seq<Inode>)
    requires Shape(fs) && i < |fs.inodes| && |inodes| == |fs.inodes|
    requires inodes == Cleared(fs, i, NDIRECT)[i := Inode(0, inodes[i].addrs)]
    requires inodes[i].addrs == Cleared(fs, i, NDIRECT)[i].addrs[NDIRECT := 0]
    ensures Truncated(fs, i) == Freed(fs, Targets(fs, i, 0, NSLOTS)).(inodes := inodes)
  {
    assert inodes[i].addrs == EMPTY_ADDRS;
  }

  lemma TargetsStep(fs: Fs, i: nat, lo: nat, k: nat)
    requires Shape(fs) && i < |fs.inodes| && lo <= k < NSLOTS
    ensures var t := Target(fs, i, k);
            Targets(fs, i, lo, k + 1) == Targets(fs, i, lo, k) + if t == 0 then {} else {t}
  {}

  lemma TargetsNone(fs: Fs, i: nat, k: nat)
    requires Shape(fs) && i < |fs.inodes| && k <= NSLOTS
    ensures Targets(fs, i, k, k) == {}
  {}

  lemma FreedIgnoresInodes(fs: Fs, inodes: seq<Inode>, S: set<nat>)
    requires Shape(fs) && Shape(fs.(inodes := inodes))
    ensures Freed(fs.(inodes := inodes), S) == Freed(fs, S).(inodes := inodes)
  {}
}
