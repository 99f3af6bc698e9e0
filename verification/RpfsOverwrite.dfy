/** Replacing a file, interrupted before its first FAT sector: exactly when the
    old contents survive. */
module RpfsOverwrite {
  import opened Bytes
  import opened Drives
  import opened RpfsLayout
  import opened RpfsFat
  import opened RpfsVolume
  import opened RpfsOps
  import opened RpfsFiles
  import opened RpfsCrash

  /** fs_write of an existing file, stopped after `k` of its data sectors. */
  ghost predicate Overwriting(v: Volume, name: CString, data: seq<byte>, k: nat) {
    && v.Shaped() && |data| < 0x1_0000_0000 && ValidName(name)
    && Find(v.dir, name) >= 0 && SlotFor(v.dir, name) >= 0
    && k <= |ChainFor(v, name, |data|)| <= |FsWrite(v, name, data).log|
  }

  /** The volume as a remount finds it then: the old metadata over a changed platter. */
  ghost function Stopped(v: Volume, name: CString, data: seq<byte>, k: nat): (m: Volume)
    requires Overwriting(v, name, data, k)
    ensures |m.disk| == |v.disk| && m.sb == v.sb && m.fat == v.fat && m.dir == v.dir
  {
    v.(disk := Replay(v.disk, FsWrite(v, name, data).log[..k]))
  }

  lemma StoppedIsRemounted(v: Volume, name: CString, data: seq<byte>, k: nat)
    requires Overwriting(v, name, data, k) && Inv(v) && Synced(v)
    ensures var disk := Stopped(v, name, data, k).disk;
      ParseSuperblock(disk[FS_START_LBA]) == v.sb && MountImage(disk) == Stopped(v, name, data, k)
  {
    DataPhaseCrash(v, name, data, k);
  }

  /** Where the first `k` blocks of the new chain are written, nothing else is. */
  lemma StoppedLog(v: Volume, name: CString, data: seq<byte>, k: nat)
    requires Overwriting(v, name, data, k)
    ensures |ChainFor(v, name, |data|)[..k]| <= BlocksFor(|data|)
    ensures Stopped(v, name, data, k).disk == Replay(v.disk, DataLog(v.sb, ChainFor(v, name, |data|)[..k], data))
  {
    var c := ChainFor(v, name, |data|);
    assert FsWrite(v, name, data).log[..k] == DataLog(v.sb, c, data)[..k];
    assert DataLog(v.sb, c, data)[..k] == DataLog(v.sb, c[..k], data);
  }

  lemma WrittenSector(v: Volume, name: CString, data: seq<byte>, k: nat, m: nat)
    requires Overwriting(v, name, data, k) && m < k
    ensures var b := ChainFor(v, name, |data|)[m];
      0 <= BlockLba(v.sb, b) < |v.disk| && Stopped(v, name, data, k).disk[BlockLba(v.sb, b)] == Chunk(data, m)
  {
    StoppedLog(v, name, data, k);
    var part := ChainFor(v, name, |data|)[..k];
    hide FsWrite, ChainFor, Chunk, Stopped, Replay;
    DataLanded(v.disk, v.sb, part, data, m);
  }

  lemma SparedSector(v: Volume, name: CString, data: seq<byte>, k: nat, b: u16)
    requires Overwriting(v, name, data, k) && 1 <= b <= v.sb.dataBlocks
    requires forall m :: 0 <= m < k ==> ChainFor(v, name, |data|)[m] != b
    ensures 0 <= BlockLba(v.sb, b) < |v.disk|
    ensures Stopped(v, name, data, k).disk[BlockLba(v.sb, b)] == v.disk[BlockLba(v.sb, b)]
  {
    StoppedLog(v, name, data, k);
    var part := ChainFor(v, name, |data|)[..k];
    hide FsWrite, ChainFor, Chunk, Stopped, Replay;
    DataElsewhere(v.disk, v.sb, part, data, BlockLba(v.sb, b));
  }

  // --- the exact condition --------------------------------------------------

  /** Two platters gather the same bytes exactly when the visible part of every
      block is the same on both. */
  ghost predicate SameVisible(d: seq<Sector>, e: seq<Sector>, sb: Superblock, c: seq<u16>, size: nat)
    requires |d| == |e| && forall k :: 0 <= k < |c| ==> 0 <= BlockLba(sb, c[k]) < |d|
  {
    forall p :: 0 <= p < |c| && 512 * p < size ==>
      d[BlockLba(sb, c[p])][..Min(size - 512 * p, 512)] == e[BlockLba(sb, c[p])][..Min(size - 512 * p, 512)]
  }

  lemma {:induction false} GatherSameIff(d: seq<Sector>, e: seq<Sector>, sb: Superblock, c: seq<u16>, size: nat)
    requires |d| == |e| && forall k :: 0 <= k < |c| ==> 0 <= BlockLba(sb, c[k]) < |d|
    ensures Gather(d, sb, c, size) == Gather(e, sb, c, size) <==> SameVisible(d, e, sb, c, size)
    decreases |c|
  {
    if size > 0 && |c| > 0 {
      var n := Min(size, 512);
      var rest := c[1..];
      GatherSameIff(d, e, sb, rest, size - n);
      GatherLength(d, sb, rest, size - n);
      GatherLength(e, sb, rest, size - n);
      SplitHead(d[BlockLba(sb, c[0])][..n], Gather(d, sb, rest, size - n),
                e[BlockLba(sb, c[0])][..n], Gather(e, sb, rest, size - n));
      VisibleStep(d, e, sb, c, size);
    }
  }

  lemma SplitHead(a: seq<byte>, x: seq<byte>, b: seq<byte>, y: seq<byte>)
    requires |a| == |b|
    ensures a + x == b + y <==> a == b && x == y
  {
    if a + x == b + y {
      assert a == (a + x)[..|a|] && b == (b + y)[..|b|];
      assert x == (a + x)[|a|..] && y == (b + y)[|b|..];
    }
  }

  lemma VisibleStep(d: seq<Sector>, e: seq<Sector>, sb: Superblock, c: seq<u16>, size: nat)
    requires |d| == |e| && forall k :: 0 <= k < |c| ==> 0 <= BlockLba(sb, c[k]) < |d|
    requires size > 0 && |c| > 0
    ensures var n := Min(size, 512);
      SameVisible(d, e, sb, c, size) <==>
        d[BlockLba(sb, c[0])][..n] == e[BlockLba(sb, c[0])][..n] && SameVisible(d, e, sb, c[1..], size - n)
  {
    var n := Min(size, 512);
    var rest := c[1..];
    if SameVisible(d, e, sb, c, size) {
      forall p | 0 <= p < |rest| && 512 * p < size - n
        ensures d[BlockLba(sb, rest[p])][..Min(size - n - 512 * p, 512)] ==
          e[BlockLba(sb, rest[p])][..Min(size - n - 512 * p, 512)]
      {
        assert rest[p] == c[p + 1];
      }
      assert d[BlockLba(sb, c[0])][..n] == e[BlockLba(sb, c[0])][..n];
    }
    if d[BlockLba(sb, c[0])][..n] == e[BlockLba(sb, c[0])][..n] && SameVisible(d, e, sb, rest, size - n) {
      forall p | 0 <= p < |c| && 512 * p < size
        ensures d[BlockLba(sb, c[p])][..Min(size - 512 * p, 512)] == e[BlockLba(sb, c[p])][..Min(size - 512 * p, 512)]
      {
        if p > 0 {
          assert c[p] == rest[p - 1];
        }
      }
    }
  }

  /** Every block of the old file written so far got the bytes the file already
      had there, as far as its size reaches. */
  ghost predicate KeepsBytes(v: Volume, name: CString, data: seq<byte>, k: nat)
    requires Overwriting(v, name, data, k)
  {
    var c, was, size := ChainFor(v, name, |data|), v.ChainOf(Find(v.dir, name)), v.dir[Find(v.dir, name)].size;
    forall m, p :: 0 <= m < k && 0 <= p < |was| && 512 * p < size && was[p] == c[m] ==>
      && 512 * m <= |data| && 0 <= BlockLba(v.sb, was[p]) < |v.disk|
      && Chunk(data, m)[..Min(size - 512 * p, 512)] == v.disk[BlockLba(v.sb, was[p])][..Min(size - 512 * p, 512)]
  }

  /** A remount reads the old contents, whatever the buffer. */
  ghost predicate ReadsOld(v: Volume, name: CString, data: seq<byte>, k: nat)
    requires Overwriting(v, name, data, k)
  {
    forall maxlen: nat :: FsRead(Stopped(v, name, data, k), name, maxlen) == FsRead(v, name, maxlen)
  }

  lemma KeepsBytesIff(v: Volume, name: CString, data: seq<byte>, k: nat)
    requires Overwriting(v, name, data, k)
    requires Inv(v)
    ensures var was := v.ChainOf(Find(v.dir, name));
      && (forall p :: 0 <= p < |was| ==> 0 <= BlockLba(v.sb, was[p]) < |v.disk|)
      && (SameVisible(Stopped(v, name, data, k).disk, v.disk, v.sb, was, v.dir[Find(v.dir, name)].size)
          <==> KeepsBytes(v, name, data, k))
  {
    hide Inv, KeepsBytes, SameVisible;
    ReadIsGather(v, name);
    if KeepsBytes(v, name, data, k) {
      KeptIsSame(v, name, data, k);
    }
    var i := Find(v.dir, name);
    if SameVisible(Stopped(v, name, data, k).disk, v.disk, v.sb, v.ChainOf(i), v.dir[i].size) {
      SameIsKept(v, name, data, k);
    }
  }

  lemma KeptIsSame(v: Volume, name: CString, data: seq<byte>, k: nat)
    requires Overwriting(v, name, data, k) && KeepsBytes(v, name, data, k)
    requires forall p :: 0 <= p < |v.ChainOf(Find(v.dir, name))| ==>
      0 <= BlockLba(v.sb, v.ChainOf(Find(v.dir, name))[p]) < |v.disk|
    requires Inv(v)
    ensures var i := Find(v.dir, name);
      SameVisible(Stopped(v, name, data, k).disk, v.disk, v.sb, v.ChainOf(i), v.dir[i].size)
  {
    hide Inv, FsWrite, Chunk, Replay, ChainFor, Stopped, Find;
    var i, w := Find(v.dir, name), Stopped(v, name, data, k);
    var was, size := v.ChainOf(i), v.dir[i].size;
    forall p | 0 <= p < |was| && 512 * p < size
      ensures w.disk[BlockLba(v.sb, was[p])][..Min(size - 512 * p, 512)] ==
        v.disk[BlockLba(v.sb, was[p])][..Min(size - 512 * p, 512)]
    {
      OldSector(v, name, data, k, p);
    }
  }

  lemma SameIsKept(v: Volume, name: CString, data: seq<byte>, k: nat)
    requires Overwriting(v, name, data, k)
    requires forall p :: 0 <= p < |v.ChainOf(Find(v.dir, name))| ==>
      0 <= BlockLba(v.sb, v.ChainOf(Find(v.dir, name))[p]) < |v.disk|
    requires var i := Find(v.dir, name);
      SameVisible(Stopped(v, name, data, k).disk, v.disk, v.sb, v.ChainOf(i), v.dir[i].size)
    ensures KeepsBytes(v, name, data, k)
  {
    hide FsWrite, Chunk, Replay, ChainFor, Stopped, Find;
    var i := Find(v.dir, name);
    var c, was, size := ChainFor(v, name, |data|), v.ChainOf(i), v.dir[i].size;
    forall m, p | 0 <= m < k && 0 <= p < |was| && 512 * p < size && was[p] == c[m]
      ensures 512 * m <= |data|
      ensures Chunk(data, m)[..Min(size - 512 * p, 512)] == v.disk[BlockLba(v.sb, was[p])][..Min(size - 512 * p, 512)]
    {
      WrittenSector(v, name, data, k, m);
    }
  }

  /** A block of the old file on the stopped platter: rewritten, or as it was. */
  lemma OldSector(v: Volume, name: CString, data: seq<byte>, k: nat, p: nat)
    requires Overwriting(v, name, data, k) && p < |v.ChainOf(Find(v.dir, name))|
    requires Inv(v)
    ensures var b := v.ChainOf(Find(v.dir, name))[p];
      && 0 <= BlockLba(v.sb, b) < |v.disk|
      && (Stopped(v, name, data, k).disk[BlockLba(v.sb, b)] == v.disk[BlockLba(v.sb, b)]
          || exists m :: 0 <= m < k && ChainFor(v, name, |data|)[m] == b
               && Stopped(v, name, data, k).disk[BlockLba(v.sb, b)] == Chunk(data, m))
  {
    var b := v.ChainOf(Find(v.dir, name))[p];
    ChainBlock(v, Find(v.dir, name), b);
    hide Inv, FsWrite, Chunk, Replay, ChainFor, Stopped, Overwriting;
    if m :| 0 <= m < k && ChainFor(v, name, |data|)[m] == b {
      WrittenSector(v, name, data, k, m);
    } else {
      SparedSector(v, name, data, k, b);
    }
  }

  /** Stopped in the data phase, the old contents survive if and only if every
      block of the old file written so far received the bytes it already had. */
  lemma OldContentsSurviveIff(v: Volume, name: CString, data: seq<byte>, k: nat)
    requires Overwriting(v, name, data, k)
    requires Inv(v)
    ensures ReadsOld(v, name, data, k) <==> KeepsBytes(v, name, data, k)
  {
    var i, w := Find(v.dir, name), Stopped(v, name, data, k);
    KeepsBytesIff(v, name, data, k);
    InvIgnoresDisk(v, w.disk);
    ReadIsGather(v, name);
    ReadIsGather(w, name);
    var size, was := v.dir[i].size, v.ChainOf(i);
    GatherSameIff(w.disk, v.disk, v.sb, was, size);
    hide Inv, FsWrite, Chunk, Replay, ChainFor, Stopped, FsRead, Gather, KeepsBytes, SameVisible, Overwriting;
    if KeepsBytes(v, name, data, k) {
      forall maxlen: nat ensures FsRead(w, name, maxlen) == FsRead(v, name, maxlen) {
        ReadDeliversContent(v, name, maxlen);
        ReadDeliversContent(w, name, maxlen);
      }
    }
    if ReadsOld(v, name, data, k) {
      assert FsRead(w, name, size) == FsRead(v, name, size);
    }
  }

  /** The blocks of slot `i` that hold bytes of its file. */
  ghost function Holding(v: Volume, i: nat): seq<u16>
    requires i < |v.dir|
  {
    v.ChainOf(i)[..Min(|v.ChainOf(i)|, BlocksFor(v.dir[i].size))]
  }

  /** The blocks a write of `len` bytes would take avoid those of the old file. */
  ghost predicate Avoids(v: Volume, name: CString, len: nat)
    requires v.Shaped() && Find(v.dir, name) >= 0
  {
    forall x :: x in ChainFor(v, name, len) ==> x !in Holding(v, Find(v.dir, name))
  }

  /** Seen before the call: replacing a file by any `len` bytes can be stopped
      anywhere in its data phase without loss if and only if the blocks it will
      take avoid those of the old file. */
  lemma OverwriteSafeIff(v: Volume, name: CString, len: u32)
    requires v.Shaped() && ValidName(name) && Find(v.dir, name) >= 0
    requires Inv(v) && Synced(v)
    ensures Avoids(v, name, len) <==>
      forall data: seq<byte>, k: nat :: |data| == len && Overwriting(v, name, data, k) ==> ReadsOld(v, name, data, k)
  {
    hide FsWrite, Chunk, Replay, ChainFor, Synced, ReadsOld;
    if Avoids(v, name, len) {
      forall data: seq<byte>, k: nat | |data| == len && Overwriting(v, name, data, k)
        ensures ReadsOld(v, name, data, k) {
        AvoidingKeeps(v, name, data, k);
        OldContentsSurviveIff(v, name, data, k);
      }
    } else {
      var x :| x in ChainFor(v, name, len) && x in Holding(v, Find(v.dir, name));
      var data, k := TearingData(v, name, len, x);
      OldContentsSurviveIff(v, name, data, k);
    }
  }

  lemma AvoidingKeeps(v: Volume, name: CString, data: seq<byte>, k: nat)
    requires Overwriting(v, name, data, k) && Avoids(v, name, |data|)
    ensures KeepsBytes(v, name, data, k)
  {
    hide FsWrite, Chunk, Find;
    var i := Find(v.dir, name);
    var c, was := ChainFor(v, name, |data|), v.ChainOf(i);
    forall m, p | 0 <= m < k && 0 <= p < |was| && 512 * p < v.dir[i].size ensures was[p] != c[m] {
      assert c[m] in c && Holding(v, i)[p] in Holding(v, i);
    }
  }

  /** Data that begins every block with another byte than block `x` has. */
  lemma TearingData(v: Volume, name: CString, len: u32, x: u16) returns (data: seq<byte>, k: nat)
    requires v.Shaped() && ValidName(name) && Find(v.dir, name) >= 0
    requires x in ChainFor(v, name, len) && x in Holding(v, Find(v.dir, name))
    requires Inv(v)
    ensures |data| == len && Overwriting(v, name, data, k) && !KeepsBytes(v, name, data, k)
  {
    hide Inv, ChainFor, Find, FsWrite, Chunk, Chain, Holding, DataLog, Replay, BlockLba;
    var m, p := TearSpot(v, name, len, x);
    var lba := BlockLba(v.sb, x);
    var other: byte := if v.disk[lba][0] == 0 then 1 else 0;
    data := seq(len, _ => other);
    k := |ChainFor(v, name, len)|;
    LogCoversData(v, name, data);
    ChunkStarts(data, m);
    var n := Min(v.dir[Find(v.dir, name)].size - 512 * p, 512);
    assert Chunk(data, m)[..n][0] != v.disk[lba][..n][0];
  }

  lemma LogCoversData(v: Volume, name: CString, data: seq<byte>)
    requires v.Shaped() && |data| < 0x1_0000_0000 && ValidName(name) && SlotFor(v.dir, name) >= 0
    ensures |ChainFor(v, name, |data|)| <= |FsWrite(v, name, data).log|
  {
  }

  /** Where block `x` stands in the new and in the old chain. */
  lemma TearSpot(v: Volume, name: CString, len: u32, x: u16) returns (m: nat, p: nat)
    requires v.Shaped() && Find(v.dir, name) >= 0
    requires x in ChainFor(v, name, len) && x in Holding(v, Find(v.dir, name))
    requires Inv(v)
    ensures m < |ChainFor(v, name, len)| && ChainFor(v, name, len)[m] == x && 512 * m < len
    ensures var i := Find(v.dir, name);
      p < |v.ChainOf(i)| && v.ChainOf(i)[p] == x && 512 * p < v.dir[i].size
    ensures 0 <= BlockLba(v.sb, x) < |v.disk|
  {
    var i := Find(v.dir, name);
    assert SlotOk(v, i);
    p :| 0 <= p < |Holding(v, i)| && Holding(v, i)[p] == x;
    assert v.ChainOf(i)[p] == x;
    ChainBlock(v, i, x);
    hide Inv, ChainFor, Find, IsChain;
    m :| 0 <= m < |ChainFor(v, name, len)| && ChainFor(v, name, len)[m] == x;
  }

  lemma ChunkStarts(data: seq<byte>, m: nat)
    requires 512 * m < |data|
    ensures Chunk(data, m)[0] == data[512 * m]
  {
  }

  lemma ReadIsGather(v: Volume, name: CString)
    requires Inv(v) && Find(v.dir, name) >= 0
    ensures var i := Find(v.dir, name);
      && FsRead(v, name, v.dir[i].size) == Found(v.dir[i].size, Gather(v.disk, v.sb, v.ChainOf(i), v.dir[i].size))
      && forall k :: 0 <= k < |v.ChainOf(i)| ==> 0 <= BlockLba(v.sb, v.ChainOf(i)[k]) < |v.disk|
  {
    var i := Find(v.dir, name);
    assert SlotOk(v, i);
    WalkIsGather(v, v.ChainOf(i), v.dir[i].size);
    forall k | 0 <= k < |v.ChainOf(i)| ensures 0 <= BlockLba(v.sb, v.ChainOf(i)[k]) < |v.disk| {
      ChainBlock(v, i, v.ChainOf(i)[k]);
    }
  }

  // --- between the metadata sectors -----------------------------------------

  /** The blocks that reading `size` bytes from `b` visits. */
  ghost function Trail(m: Volume, b: u16, size: nat): seq<u16>
    decreases size
  {
    if size == 0 || !IsBlock(b) || b >= |m.fat| || !(0 <= BlockLba(m.sb, b) < |m.disk|) then []
    else [b] + Trail(m, m.fat[b], size - Min(size, 512))
  }

  lemma {:induction false} WalkIsTrail(m: Volume, b: u16, size: nat)
    ensures Walk(m, b, size) == Gather(m.disk, m.sb, Trail(m, b, size), size)
    decreases size
  {
    if size > 0 && IsBlock(b) && b < |m.fat| && 0 <= BlockLba(m.sb, b) < |m.disk| {
      WalkIsTrail(m, m.fat[b], size - Min(size, 512));
      assert Trail(m, b, size)[1..] == Trail(m, m.fat[b], size - Min(size, 512));
    }
  }

  /** A set of blocks closed under links keeps the trail inside. */
  lemma {:induction false} TrailStays(m: Volume, b: u16, size: nat, own: set<u16>)
    requires IsBlock(b) ==> b in own
    requires forall x :: x in own && x < |m.fat| && IsBlock(m.fat[x]) ==> m.fat[x] in own
    ensures forall x :: x in Trail(m, b, size) ==> x in own
    decreases size
  {
    if size > 0 && IsBlock(b) && b < |m.fat| && 0 <= BlockLba(m.sb, b) < |m.disk| {
      TrailStays(m, m.fat[b], size - Min(size, 512), own);
    }
  }

  /** The blocks of the written slot's old chain and of the new one. */
  ghost function OwnBlocks(v: Volume, name: CString, len: nat): set<u16>
    requires v.Shaped() && SlotFor(v.dir, name) >= 0
  {
    (set x | x in v.ChainOf(SlotFor(v.dir, name))) + (set x | x in ChainFor(v, name, len))
  }

  lemma WrittenFat(v: Volume, name: CString, data: seq<byte>)
    requires v.Shaped() && |data| < 0x1_0000_0000 && ValidName(name) && SlotFor(v.dir, name) >= 0
    ensures var r, c, dropped := FsWrite(v, name, data), ChainFor(v, name, |data|), DroppedFat(v, name);
      && r.vol.fat == (if r.ok then Linked(dropped, c) else dropped)
      && (r.ok ==> r.vol.dir[SlotFor(v.dir, name)].first == Head(c))
      && (!r.ok ==> r.vol.dir[SlotFor(v.dir, name)].first == 0)
  {
  }

  /** Old and new links of those blocks stay among them. */
  lemma OwnLinks(v: Volume, name: CString, data: seq<byte>, x: u16)
    requires v.Shaped() && |data| < 0x1_0000_0000 && ValidName(name) && SlotFor(v.dir, name) >= 0
    requires x in OwnBlocks(v, name, |data|) && x < |v.fat|
    requires Inv(v)
    ensures IsBlock(v.fat[x]) ==> v.fat[x] in OwnBlocks(v, name, |data|)
    ensures IsBlock(FsWrite(v, name, data).vol.fat[x]) ==>
      FsWrite(v, name, data).vol.fat[x] in OwnBlocks(v, name, |data|)
  {
    hide Inv, FsWrite, ChainFor, SlotFor, Linked, Cleared, Chain;
    var i, c := SlotFor(v.dir, name), ChainFor(v, name, |data|);
    var was := v.ChainOf(i);
    LinksOfChain(v, i, x);
    TakenBlocks(v, name, |data|);
    WrittenFat(v, name, data);
    DroppedLinks(v, name, x);
    LinkedShape(DroppedFat(v, name), c);
    if x in c {
      var k :| 0 <= k < |c| && c[k] == x;
      assert Linked(DroppedFat(v, name), c)[x] == Next(c, k);
    }
  }

  /** A block's link leads on along its chain. */
  lemma LinksOfChain(v: Volume, i: nat, x: u16)
    requires Inv(v) && i < FS_DIR_ENTRIES
    ensures x in v.ChainOf(i) && x < |v.fat| && IsBlock(v.fat[x]) ==> v.fat[x] in v.ChainOf(i)
  {
    assert SlotOk(v, i);
    hide Inv, Chain;
    var was := v.ChainOf(i);
    if x in was {
      var p :| 0 <= p < |was| && was[p] == x;
      assert v.fat[was[p]] == Next(was, p);
    }
  }

  lemma DroppedLinks(v: Volume, name: CString, x: u16)
    requires v.Shaped() && SlotFor(v.dir, name) >= 0 && x < |v.fat|
    ensures DroppedFat(v, name)[x] == FAT_FREE || DroppedFat(v, name)[x] == v.fat[x]
  {
  }

  /** However fs_write is cut short, every byte a remount reads under its name
      comes from a block of the file's old chain or of its new one, none from
      another file's; the size is the old or the new one. */
  lemma ReadsOwnBlocks(v: Volume, name: CString, data: seq<byte>, m: Volume, maxlen: nat)
    requires v.Shaped() && |data| < 0x1_0000_0000 && ValidName(name) && SlotFor(v.dir, name) >= 0
    requires var after := FsWrite(v, name, data).vol;
      Mixed(v, after.fat, after.dir, ChainFor(v, name, |data|), m)
    requires Inv(v)
    ensures var r, i := FsRead(m, name, maxlen), SlotFor(v.dir, name);
      r.Found? ==> r.size == v.dir[i].size || r.size == FsWrite(v, name, data).vol.dir[i].size
    ensures var r := FsRead(m, name, maxlen);
      r == NotFound || exists bs: seq<u16> ::
        && r.bytes == Gather(m.disk, m.sb, bs, Min(r.size, maxlen))
        && forall x :: x in bs ==> x in OwnBlocks(v, name, |data|)
  {
    var i, j, own := SlotFor(v.dir, name), Find(m.dir, name), OwnBlocks(v, name, |data|);
    if j >= 0 {
      MixedFind(v, name, data, m);
      forall x | x in own && x < |m.fat| && IsBlock(m.fat[x]) ensures m.fat[x] in own {
        OwnLinks(v, name, data, x);
      }
      hide Inv, FsWrite, ChainFor, Mixed;
      var size := Min(m.dir[j].size, maxlen);
      TrailStays(m, m.dir[j].first, size, own);
      WalkIsTrail(m, m.dir[j].first, size);
      var bs := Trail(m, m.dir[j].first, size);
      assert FsRead(m, name, maxlen).bytes == Gather(m.disk, m.sb, bs, size);
    }
  }

  /** The entry a remount finds under the name is the slot's old or new one. */
  lemma MixedFind(v: Volume, name: CString, data: seq<byte>, m: Volume)
    requires v.Shaped() && |data| < 0x1_0000_0000 && ValidName(name) && SlotFor(v.dir, name) >= 0
    requires var after := FsWrite(v, name, data).vol;
      Mixed(v, after.fat, after.dir, ChainFor(v, name, |data|), m)
    requires Inv(v) && Find(m.dir, name) >= 0
    ensures Find(m.dir, name) == SlotFor(v.dir, name)
    ensures var i := SlotFor(v.dir, name); m.dir[i] == v.dir[i] || m.dir[i] == FsWrite(v, name, data).vol.dir[i]
    ensures var e := m.dir[SlotFor(v.dir, name)];
      IsBlock(e.first) ==> e.first in OwnBlocks(v, name, |data|)
  {
    var i, j, c := SlotFor(v.dir, name), Find(m.dir, name), ChainFor(v, name, |data|);
    WrittenFat(v, name, data);
    assert SlotOk(v, i);
    if Used(v.dir[i]) && |v.ChainOf(i)| > 0 {
      assert v.ChainOf(i)[0] in v.ChainOf(i);
    }
    if |c| > 0 {
      assert c[0] in c;
    }
  }

  /** And each of those blocks holds its old bytes or a block of the new data. */
  lemma {:induction false} OldOrLogged(disk: seq<Sector>, log: seq<SectorWrite>, lba: nat)
    requires lba < |disk|
    ensures Replay(disk, log)[lba] == disk[lba]
      || exists k :: 0 <= k < |log| && log[k].lba == lba && log[k].data == Replay(disk, log)[lba]
    decreases |log|
  {
    if |log| > 0 {
      var before := log[..|log| - 1];
      OldOrLogged(disk, before, lba);
      if log[|log| - 1].lba != lba && Replay(disk, before)[lba] != disk[lba] {
        var k :| 0 <= k < |before| && before[k].lba == lba && before[k].data == Replay(disk, before)[lba];
        assert log[k] == before[k];
      }
    }
  }

  /** A logged write to a data block stores a block of the data there. */
  lemma LoggedChunk(v: Volume, name: CString, data: seq<byte>, w: SectorWrite, x: u16)
    requires v.Shaped() && |data| < 0x1_0000_0000 && ValidName(name) && SlotFor(v.dir, name) >= 0
    requires w in FsWrite(v, name, data).log && 1 <= x && w.lba == BlockLba(v.sb, x)
    ensures exists k ::
      0 <= k < |ChainFor(v, name, |data|)| && ChainFor(v, name, |data|)[k] == x && w.data == Chunk(data, k)
  {
    var after, c := FsWrite(v, name, data).vol, ChainFor(v, name, |data|);
    WriteLogParts(v, name, data);
    if w in DataLog(v.sb, c, data) {
      var k :| 0 <= k < |c| && DataLog(v.sb, c, data)[k] == w;
      assert c[k] == x;
    } else {
      FlushAllowed(v, after.fat, after.dir, [], w);
    }
  }

  /** The bytes of a data block after any selection of the writes of fs_write:
      the old ones, or a block of the new data in its place. */
  lemma BlockOldOrNew(v: Volume, name: CString, data: seq<byte>, log: seq<SectorWrite>, x: u16)
    requires v.Shaped() && |data| < 0x1_0000_0000 && ValidName(name) && SlotFor(v.dir, name) >= 0
    requires (forall k :: 0 <= k < |log| ==> log[k] in FsWrite(v, name, data).log) && 1 <= x <= v.sb.dataBlocks
    ensures var c, lba := ChainFor(v, name, |data|), BlockLba(v.sb, x);
      && 0 <= lba < |v.disk|
      && (Replay(v.disk, log)[lba] == v.disk[lba]
          || exists k :: 0 <= k < |c| && c[k] == x && Replay(v.disk, log)[lba] == Chunk(data, k))
  {
    hide FsWrite, ChainFor, Chunk, Replay;
    OldOrLogged(v.disk, log, BlockLba(v.sb, x));
    if Replay(v.disk, log)[BlockLba(v.sb, x)] != v.disk[BlockLba(v.sb, x)] {
      var k :|
        0 <= k < |log| && log[k].lba == BlockLba(v.sb, x) && log[k].data == Replay(v.disk, log)[BlockLba(v.sb, x)];
      LoggedChunk(v, name, data, log[k], x);
    }
  }
}
