/** The xv6 file store as a value: block bitmap, disk blocks and inodes, who owns
    which block, and the bytes of each file. */
module FsState {
  import opened Basics

  const BSIZE := 512
  const NDIRECT := 12
  const NINDIRECT := 128
  const MAXFILE := 140
  const BPB := 4096        // bitmap bits per bitmap block
  const NSLOTS := 141      // twelve direct pointers, the indirect pointer, its 128 entries

  type Block = b: seq<byte> | |b| == 512 witness seq(512, _ => 0)

  function ZeroBlock(): (b: Block)
    ensures forall i :: 0 <= i < BSIZE ==> b[i] == 0
  {
    seq(512, _ => 0)
  }

  datatype Inode = Inode(size: nat, addrs: seq<nat>)

  /** `used` is the bitmap, one bit a block, padded to whole bitmap blocks. */
  datatype Fs = Fs(size: nat, dataStart: nat, used: seq<bool>, disk: seq<Block>, inodes: seq<Inode>)

  // ----- little-endian words inside a block

  function Word(b: Block, j: nat): nat
    requires j < NINDIRECT
  {
    var (b0: int, b1: int, b2: int, b3: int) := (b[4 * j], b[4 * j + 1], b[4 * j + 2], b[4 * j + 3]);
    b0 + 256 * b1 + 65536 * b2 + 16777216 * b3
  }

  function SetWord(b: Block, j: nat, v: nat): Block
    requires j < NINDIRECT && v < 0x1_0000_0000
  {
    b[4 * j := v % 256][4 * j + 1 := v / 256 % 256][4 * j + 2 := v / 65536 % 256][4 * j + 3 := v / 16777216 % 256]
  }

  lemma Digits(v: nat)
    requires v < 0x1_0000_0000
    ensures v == v % 256 + 256 * (v / 256 % 256) + 65536 * (v / 65536 % 256) + 16777216 * (v / 16777216 % 256)
  {
    assert v / 65536 == v / 256 / 256 && v / 16777216 == v / 256 / 256 / 256;
  }

  lemma SetWordReads(b: Block, j: nat, v: nat, k: nat)
    requires j < NINDIRECT && k < NINDIRECT && v < 0x1_0000_0000
    ensures Word(SetWord(b, j, v), k) == if k == j then v else Word(b, k)
  {
    var r := SetWord(b, j, v);
    if k == j {
      Digits(v);
      assert r[4 * j] == v % 256 && r[4 * j + 1] == v / 256 % 256;
      assert r[4 * j + 2] == v / 65536 % 256 && r[4 * j + 3] == v / 16777216 % 256;
    } else {
      assert r[4 * k] == b[4 * k] && r[4 * k + 1] == b[4 * k + 1];
      assert r[4 * k + 2] == b[4 * k + 2] && r[4 * k + 3] == b[4 * k + 3];
    }
  }

  // ----- slots: the places that can point to a block

  function Target(fs: Fs, i: nat, k: nat): nat
    requires i < |fs.inodes| && |fs.inodes[i].addrs| == NDIRECT + 1 && k < NSLOTS
  {
    var a := fs.inodes[i].addrs;
    if k <= NDIRECT then a[k]
    else if a[NDIRECT] == 0 || a[NDIRECT] >= |fs.disk| then 0
    else Word(fs.disk[a[NDIRECT]], k - NDIRECT - 1)
  }

  /** The slot that holds the address of the n-th block of a file. */
  function SlotOf(n: nat): nat { if n < NDIRECT then n else n + 1 }

  predicate Shape(fs: Fs) {
    && fs.dataStart <= fs.size == |fs.disk| && 1 <= fs.dataStart && fs.size < 0x1_0000_0000
    && fs.size <= |fs.used| < fs.size + BPB && |fs.used| % BPB == 0
    && forall i :: 0 <= i < |fs.inodes| ==> |fs.inodes[i].addrs| == NDIRECT + 1
  }

  predicate IsSlot(fs: Fs, i: int, k: int) {
    0 <= i < |fs.inodes| && 0 <= k < NSLOTS
  }

  /** A slot points into the data region, to a block marked used. */
  ghost predicate PointsWell(fs: Fs)
    requires Shape(fs)
  {
    forall i, k :: IsSlot(fs, i, k) && Target(fs, i, k) != 0
                   ==> fs.dataStart <= Target(fs, i, k) < fs.size && fs.used[Target(fs, i, k)]
  }

  /** No block has two owners. */
  ghost predicate OneOwner(fs: Fs)
    requires Shape(fs)
  {
    forall i, k, j, l | IsSlot(fs, i, k) && IsSlot(fs, j, l) ::
      Target(fs, i, k) != 0 && Target(fs, i, k) == Target(fs, j, l) ==> i == j && k == l
  }

  /** A free block is all zero. */
  ghost predicate FreeIsZero(fs: Fs)
    requires Shape(fs)
  {
    forall b :: 0 <= b < fs.size && !fs.used[b] ==> fs.disk[b] == ZeroBlock()
  }

  /** Every used data block has an owner, and the blocks before the data region stay used. */
  ghost predicate NoLeak(fs: Fs)
    requires Shape(fs)
  {
    && (forall b :: 0 <= b < fs.dataStart ==> fs.used[b])
    && (forall b :: fs.dataStart <= b < fs.size && fs.used[b] ==> HasOwner(fs, b))
  }

  ghost predicate Owned(fs: Fs)
    requires Shape(fs)
  {
    PointsWell(fs) && OneOwner(fs) && FreeIsZero(fs) && NoLeak(fs)
  }

  ghost predicate HasOwner(fs: Fs, b: nat)
    requires Shape(fs)
  {
    exists i, k :: IsSlot(fs, i, k) && Target(fs, i, k) == b
  }

  // ----- file contents

  /** byte p of file i; a block that was never allocated reads as zeros. */
  function FileByte(fs: Fs, i: nat, p: nat): byte
    requires Shape(fs) && i < |fs.inodes| && p < MAXFILE * BSIZE
  {
    var t := Target(fs, i, SlotOf(p / BSIZE));
    if t == 0 || t >= fs.size then 0 else fs.disk[t][p % BSIZE]
  }

  ghost predicate Sized(fs: Fs, i: nat)
    requires Shape(fs) && i < |fs.inodes|
  {
    var size := fs.inodes[i].size;
    && size <= MAXFILE * BSIZE
    // every block below the end is allocated, every byte past the end is zero
    && (forall n :: 0 <= n < MAXFILE && n * BSIZE < size ==> Target(fs, i, SlotOf(n)) != 0)
    && (forall p :: size <= p < MAXFILE * BSIZE ==> FileByte(fs, i, p) == 0)
  }

  ghost predicate Inv(fs: Fs) {
    Shape(fs) && Owned(fs) && forall i :: 0 <= i < |fs.inodes| ==> Sized(fs, i)
  }

  /** Where block n of a file lies: the first twelve addresses are in the inode, the others are the
      four-byte little-endian words of the block that the thirteenth address names. */
  function AddressOnDisk(fs: Fs, i: nat, n: nat): nat
    requires Shape(fs) && i < |fs.inodes| && n < 140
  {
    var a := fs.inodes[i].addrs;
    if n < 12 then a[n]
    else if a[12] == 0 || a[12] >= fs.size then 0
    else
      var (b, j) := (fs.disk[a[12]], 4 * (n - 12));
      var (b0: int, b1: int, b2: int, b3: int) := (b[j], b[j + 1], b[j + 2], b[j + 3]);
      b0 + 0x100 * b1 + 0x1_0000 * b2 + 0x100_0000 * b3
  }

  /** Each byte below a file's end is in its block of 512 bytes on the disk, in the data region and
      marked used; no other byte of any file is in the same place. */
  lemma ByteOnDisk(fs: Fs, i: nat, p: nat)
    requires Inv(fs) && i < |fs.inodes| && p < fs.inodes[i].size
    ensures p < 140 * 512
    ensures var a := AddressOnDisk(fs, i, p / 512);
            && fs.dataStart <= a < fs.size && a != 0 && fs.used[a] && FileByte(fs, i, p) == fs.disk[a][p % 512]
    ensures forall j, q :: 0 <= j < |fs.inodes| && 0 <= q < fs.inodes[j].size <= 140 * 512 && (j != i || q / 512 != p / 512)
                           ==> AddressOnDisk(fs, j, q / 512) != AddressOnDisk(fs, i, p / 512)
  {
    hide FreeIsZero, NoLeak, AddressOnDisk;
    AddressIs(fs, i, p);
    forall j, q | 0 <= j < |fs.inodes| && 0 <= q < fs.inodes[j].size <= 140 * 512 && (j != i || q / 512 != p / 512)
      ensures AddressOnDisk(fs, j, q / 512) != AddressOnDisk(fs, i, p / 512)
    {
      AddressIs(fs, j, q);
      assert IsSlot(fs, i, SlotOf(p / 512)) && IsSlot(fs, j, SlotOf(q / 512));
    }
  }

  lemma AddressIs(fs: Fs, i: nat, p: nat)
    requires Inv(fs) && i < |fs.inodes| && p < fs.inodes[i].size
    ensures p < 140 * 512 && AddressOnDisk(fs, i, p / 512) == Target(fs, i, SlotOf(p / 512)) != 0
    ensures var a := AddressOnDisk(fs, i, p / 512); fs.dataStart <= a < fs.size && fs.used[a]
  {
    hide FreeIsZero, NoLeak, OneOwner;
    assert Sized(fs, i);
    assert p / 512 * BSIZE <= p;
    assert IsSlot(fs, i, SlotOf(p / 512));
  }

  ghost predicate Core(fs: Fs) { Shape(fs) && Owned(fs) }

  /** Sizes and bytes of all files agree. */
  ghost predicate SameFiles(fs: Fs, fs': Fs)
    requires Shape(fs) && Shape(fs')
  {
    && |fs'.inodes| == |fs.inodes| && fs'.size == fs.size
    && (forall i :: 0 <= i < |fs.inodes| ==> fs'.inodes[i].size == fs.inodes[i].size)
    && forall i, p :: 0 <= i < |fs.inodes| && 0 <= p < MAXFILE * BSIZE ==> FileByte(fs', i, p) == FileByte(fs, i, p)
  }

  /** Slots that pointed somewhere still point there. */
  ghost predicate Grown(fs: Fs, fs': Fs)
    requires Shape(fs) && Shape(fs')
  {
    && |fs'.inodes| == |fs.inodes|
    && forall i, k :: IsSlot(fs, i, k) && Target(fs, i, k) != 0 ==> Target(fs', i, k) == Target(fs, i, k)
  }

  // ----- attaching a free block to an empty slot

  ghost predicate Attached(fs: Fs, fs': Fs, i: nat, k: nat, b: nat)
    requires Shape(fs) && i < |fs.inodes| && k < NSLOTS && b < fs.size
  {
    && fs'.size == fs.size && fs'.dataStart == fs.dataStart && fs'.used == fs.used[b := true]
    && |fs'.inodes| == |fs.inodes| && |fs'.disk| == |fs.disk|
    && (forall j :: 0 <= j < |fs.inodes| ==> |fs'.inodes[j].addrs| == NDIRECT + 1 && fs'.inodes[j].size == fs.inodes[j].size)
    && (forall j, l :: IsSlot(fs, j, l) ==> Target(fs', j, l) == if j == i && l == k then b else Target(fs, j, l))
    && (forall x :: 0 <= x < fs.size && (k <= NDIRECT || x != fs.inodes[i].addrs[NDIRECT]) ==> fs'.disk[x] == fs.disk[x])
    && (k > NDIRECT ==> fs.inodes[i].addrs[NDIRECT] != 0)
  }

  ghost predicate Attachable(fs: Fs, i: nat, k: nat, b: nat) {
    && Core(fs) && i < |fs.inodes| && k < NSLOTS && b < fs.size
    && !fs.used[b] && Target(fs, i, k) == 0
  }

  lemma AttachKeeps(fs: Fs, fs': Fs, i: nat, k: nat, b: nat)
    requires Attachable(fs, i, k, b) && Attached(fs, fs', i, k, b)
    ensures Core(fs') && SameFiles(fs, fs') && Grown(fs, fs') && Target(fs', i, k) == b != 0
  {
    AttachOwned(fs, fs', i, k, b);
    AttachNoLeak(fs, fs', i, k, b);
    AttachBytes(fs, fs', i, k, b);
    assert IsSlot(fs, i, k);
  }

  lemma AttachOwned(fs: Fs, fs': Fs, i: nat, k: nat, b: nat)
    requires Attachable(fs, i, k, b) && Attached(fs, fs', i, k, b)
    ensures Shape(fs') && PointsWell(fs') && OneOwner(fs') && FreeIsZero(fs') && b >= fs.dataStart
  {
    hide Word, ZeroBlock, HasOwner;
    forall c | 0 <= c < fs.size && !fs'.used[c] ensures fs'.disk[c] == ZeroBlock() {
      if k > NDIRECT {
        assert IsSlot(fs, i, NDIRECT) && Target(fs, i, NDIRECT) == fs.inodes[i].addrs[NDIRECT];
      }
    }
  }

  lemma AttachNoLeak(fs: Fs, fs': Fs, i: nat, k: nat, b: nat)
    requires Attachable(fs, i, k, b) && Attached(fs, fs', i, k, b)
    ensures Shape(fs') && NoLeak(fs')
  {
    hide Word, PointsWell, OneOwner, FreeIsZero;
    forall c | fs.dataStart <= c < fs.size && fs'.used[c] ensures HasOwner(fs', c) {
      if c == b {
        assert IsSlot(fs', i, k) && Target(fs', i, k) == c;
      } else {
        assert HasOwner(fs, c);
        var j, l :| IsSlot(fs, j, l) && Target(fs, j, l) == c;
        assert IsSlot(fs', j, l) && Target(fs', j, l) == c;
      }
    }
  }

  lemma AttachBytes(fs: Fs, fs': Fs, i: nat, k: nat, b: nat)
    requires Attachable(fs, i, k, b) && Attached(fs, fs', i, k, b) && Shape(fs')
    ensures SameFiles(fs, fs')
  {
    hide Word, HasOwner, NoLeak;
    forall j, p | 0 <= j < |fs.inodes| && 0 <= p < MAXFILE * BSIZE ensures FileByte(fs', j, p) == FileByte(fs, j, p) {
      var l := SlotOf(p / BSIZE);
      assert IsSlot(fs, i, NDIRECT) && Target(fs, i, NDIRECT) == fs.inodes[i].addrs[NDIRECT];
      assert IsSlot(fs, j, l) && l != NDIRECT;
    }
  }

  // ----- writing into a block of a file

  function Patch(b: Block, o: nat, data: seq<byte>): Block
    requires o + |data| <= BSIZE
  {
    b[..o] + data + b[o + |data|..]
  }

  function Write(fs: Fs, i: nat, n: nat, o: nat, data: seq<byte>): Fs
    requires Shape(fs) && i < |fs.inodes| && n < MAXFILE && Target(fs, i, SlotOf(n)) < fs.size
    requires o + |data| <= BSIZE
  {
    var t := Target(fs, i, SlotOf(n));
    fs.(disk := fs.disk[t := Patch(fs.disk[t], o, data)])
  }

  lemma WriteTargets(fs: Fs, i: nat, n: nat, o: nat, data: seq<byte>)
    requires Core(fs) && i < |fs.inodes| && n < MAXFILE && Target(fs, i, SlotOf(n)) != 0 && o + |data| <= BSIZE
    ensures Target(fs, i, SlotOf(n)) < fs.size
    ensures var fs' := Write(fs, i, n, o, data);
            Shape(fs') && forall j, l :: IsSlot(fs, j, l) ==> Target(fs', j, l) == Target(fs, j, l)
  {
    hide Word, NoLeak, FreeIsZero, Patch;
    assert IsSlot(fs, i, SlotOf(n)) && SlotOf(n) != NDIRECT;
    var fs' := Write(fs, i, n, o, data);
    forall j, l | IsSlot(fs, j, l) ensures Target(fs', j, l) == Target(fs, j, l) {
      assert IsSlot(fs, j, NDIRECT) && Target(fs, j, NDIRECT) == fs.inodes[j].addrs[NDIRECT];
    }
  }

  lemma WriteKeepsCore(fs: Fs, i: nat, n: nat, o: nat, data: seq<byte>)
    requires Core(fs) && i < |fs.inodes| && n < MAXFILE && Target(fs, i, SlotOf(n)) != 0 && o + |data| <= BSIZE
    ensures Target(fs, i, SlotOf(n)) < fs.size && Core(Write(fs, i, n, o, data))
  {
    hide Word, Patch, Target;
    WriteTargets(fs, i, n, o, data);
    assert IsSlot(fs, i, SlotOf(n));
    var fs' := Write(fs, i, n, o, data);
    forall c | fs'.dataStart <= c < fs'.size && fs'.used[c] ensures HasOwner(fs', c) {
      assert HasOwner(fs, c);
      var j, l :| IsSlot(fs, j, l) && Target(fs, j, l) == c;
      assert IsSlot(fs', j, l);
    }
  }

  /** A write changes the bytes it covers in its own file, and no other byte of any file. */
  lemma WriteBytes(fs: Fs, i: nat, n: nat, o: nat, data: seq<byte>, j: nat, p: nat)
    requires Core(fs) && i < |fs.inodes| && n < MAXFILE && Target(fs, i, SlotOf(n)) != 0 && o + |data| <= BSIZE
    requires j < |fs.inodes| && p < MAXFILE * BSIZE
    ensures Target(fs, i, SlotOf(n)) < fs.size && Shape(Write(fs, i, n, o, data))
    ensures var from := n * BSIZE + o;
            FileByte(Write(fs, i, n, o, data), j, p)
            == if j == i && from <= p < from + |data| then data[p - from] else FileByte(fs, j, p)
  {
    hide Target, NoLeak, FreeIsZero;
    WriteTargets(fs, i, n, o, data);
    var l := SlotOf(p / BSIZE);
    assert IsSlot(fs, j, l) && IsSlot(fs, i, SlotOf(n));
    assert l == SlotOf(n) <==> p / BSIZE == n;
  }

  // ----- giving blocks back

  /** The blocks of S zeroed and marked free. */
  ghost function Freed(fs: Fs, S: set<nat>): Fs
    requires Shape(fs)
  {
    fs.(used := seq(|fs.used|, b requires 0 <= b < |fs.used| => fs.used[b] && b !in S),
        disk := seq(|fs.disk|, b requires 0 <= b < |fs.disk| => if b in S then ZeroBlock() else fs.disk[b]))
  }

  lemma FreedTwice(fs: Fs, S: set<nat>, b: nat)
    requires Shape(fs)
    ensures Shape(Freed(fs, S)) && Freed(Freed(fs, S), {b}) == Freed(fs, S + {b})
  {
    assert Freed(Freed(fs, S), {b}).used == Freed(fs, S + {b}).used;
    assert Freed(Freed(fs, S), {b}).disk == Freed(fs, S + {b}).disk;
  }

  /** The blocks that slots lo, .., hi - 1 of file i point to. */
  function Targets(fs: Fs, i: nat, lo: nat, hi: nat): (S: set<nat>)
    requires Shape(fs) && i < |fs.inodes| && lo <= hi <= NSLOTS
    ensures forall t :: t in S <==> t != 0 && exists k :: lo <= k < hi && Target(fs, i, k) == t
  {
    if lo == hi then {} else
      var t := Target(fs, i, hi - 1);
      Targets(fs, i, lo, hi - 1) + if t == 0 then {} else {t}
  }

  const EMPTY_ADDRS: seq<nat> := [0, 0, 0, 0, 0, 0, 0, 0, 0, 0, 0, 0, 0]

  /** File i without its blocks. */
  ghost function Truncated(fs: Fs, i: nat): Fs
    requires Shape(fs) && i < |fs.inodes|
  {
    Freed(fs, Targets(fs, i, 0, NSLOTS)).(inodes := fs.inodes[i := Inode(0, EMPTY_ADDRS)])
  }

  lemma TruncatedTargets(fs: Fs, i: nat)
    requires Core(fs) && i < |fs.inodes|
    ensures var fs' := Truncated(fs, i);
            Shape(fs') && forall j, l :: IsSlot(fs, j, l) ==> Target(fs', j, l) == if j == i then 0 else Target(fs, j, l)
  {
    hide Word, NoLeak, FreeIsZero;
    var fs' := Truncated(fs, i);
    forall j, l | IsSlot(fs, j, l) ensures Target(fs', j, l) == if j == i then 0 else Target(fs, j, l) {
      assert IsSlot(fs, j, NDIRECT) && Target(fs, j, NDIRECT) == fs.inodes[j].addrs[NDIRECT];
      if j != i && fs.inodes[j].addrs[NDIRECT] != 0 {
        NotTargeted(fs, i, j, NDIRECT);
      }
    }
  }

  lemma NotTargeted(fs: Fs, i: nat, j: nat, l: nat)
    requires Core(fs) && i < |fs.inodes| && j < |fs.inodes| && l < NSLOTS && j != i && Target(fs, j, l) != 0
    ensures Target(fs, j, l) !in Targets(fs, i, 0, NSLOTS)
  {
    hide Target;
    forall k | 0 <= k < NSLOTS ensures Target(fs, i, k) != Target(fs, j, l) {
      assert IsSlot(fs, i, k) && IsSlot(fs, j, l);
    }
  }

  /** Truncating a file frees exactly its own blocks and leaves every other file alone. */
  lemma TruncateKeeps(fs: Fs, i: nat)
    requires Inv(fs) && i < |fs.inodes|
    ensures var fs' := Truncated(fs, i);
            && Inv(fs') && |fs'.inodes| == |fs.inodes|
            && forall j, p :: 0 <= j < |fs.inodes| && 0 <= p < MAXFILE * BSIZE ==>
                 FileByte(fs', j, p) == if j == i then 0 else FileByte(fs, j, p)
  {
    hide Target, Sized;
    TruncatedTargets(fs, i);
    TruncateOwned(fs, i);
    var fs' := Truncated(fs, i);
    forall j, p | 0 <= j < |fs.inodes| && 0 <= p < MAXFILE * BSIZE
      ensures FileByte(fs', j, p) == if j == i then 0 else FileByte(fs, j, p)
    {
      var l := SlotOf(p / BSIZE);
      assert IsSlot(fs, j, l);
      if j != i && Target(fs, j, l) != 0 {
        NotTargeted(fs, i, j, l);
      }
    }
    forall j | 0 <= j < |fs.inodes| ensures Sized(fs', j) {
      TruncateSized(fs, fs', i, j);
    }
  }

  lemma TruncateSized(fs: Fs, fs': Fs, i: nat, j: nat)
    requires Shape(fs) && Shape(fs') && i < |fs.inodes| && j < |fs.inodes| == |fs'.inodes| && Sized(fs, j)
    requires fs'.inodes[j].size == if j == i then 0 else fs.inodes[j].size
    requires forall l :: 0 <= l < NSLOTS ==> Target(fs', j, l) == if j == i then 0 else Target(fs, j, l)
    requires forall p :: 0 <= p < MAXFILE * BSIZE ==> FileByte(fs', j, p) == if j == i then 0 else FileByte(fs, j, p)
    ensures Sized(fs', j)
  {
    hide Target, FileByte;
    if j != i {
      forall p | fs'.inodes[j].size <= p < MAXFILE * BSIZE ensures FileByte(fs', j, p) == 0 {
        assert FileByte(fs, j, p) == 0;
      }
      forall n | 0 <= n < MAXFILE && n * BSIZE < fs'.inodes[j].size ensures Target(fs', j, SlotOf(n)) != 0 {
        assert 0 <= SlotOf(n) < NSLOTS;
      }
    }
  }

  lemma TruncateOwned(fs: Fs, i: nat)
    requires Core(fs) && i < |fs.inodes|
    ensures Core(Truncated(fs, i))
  {
    hide Target, Word;
    TruncatedTargets(fs, i);
    var fs', S := Truncated(fs, i), Targets(fs, i, 0, NSLOTS);
    forall j, l | IsSlot(fs', j, l) && Target(fs', j, l) != 0
      ensures fs'.dataStart <= Target(fs', j, l) < fs'.size && fs'.used[Target(fs', j, l)]
    {
      NotTargeted(fs, i, j, l);
    }
    forall c | fs.dataStart <= c < fs.size && fs'.used[c] ensures HasOwner(fs', c) {
      assert HasOwner(fs, c);
      var j, l :| IsSlot(fs, j, l) && Target(fs, j, l) == c;
      assert IsSlot(fs', j, l);
      assert j != i;
    }
    forall c | 0 <= c < fs.dataStart ensures fs'.used[c] {
      forall k | 0 <= k < NSLOTS && Target(fs, i, k) != 0 ensures Target(fs, i, k) != c {
        assert IsSlot(fs, i, k);
      }
    }
  }
}
