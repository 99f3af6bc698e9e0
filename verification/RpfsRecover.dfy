/** When a volume found after a crash is consistent again: exactly for which
    stops, what it has then lost, and what later runs do. */
module RpfsRecover {
  import opened Bytes
  import opened Drives
  import opened RpfsLayout
  import opened RpfsFat
  import opened RpfsVolume
  import opened RpfsOps
  import opened RpfsFiles
  import opened RpfsSpace
  import opened RpfsCrash
  import opened RpfsEndings
  import opened RpfsHalves
  import opened RpfsDangling

  // --- the flush, sector by sector ------------------------------------------

  /** A FAT whose first `n` sectors on the platter are new and whose others are old. */
  lemma PartialFat(disk: seq<Sector>, start: nat, sectors: nat, n: nat, old_: seq<u16>, new_: seq<u16>)
    requires start + sectors <= |disk| && |old_| == |new_| == sectors * 256 && n <= sectors
    requires forall s :: 0 <= s < n ==> disk[start + s] == FatSector(new_, s)
    requires forall s :: n <= s < sectors ==> disk[start + s] == FatSector(old_, s)
    ensures forall x :: 0 <= x < |old_| ==> FatOf(disk, start, sectors)[x] == if x < 256 * n then new_[x] else old_[x]
  {
    hide FatOf, FatSector;
    forall x | 0 <= x < |old_|
      ensures FatOf(disk, start, sectors)[x] == if x < 256 * n then new_[x] else old_[x]
    {
      FatAt(disk, start, sectors, if x / 256 < n then new_ else old_, x);
    }
  }

  /** A directory whose first `n` sectors on the platter are new. */
  lemma PartialDir(disk: seq<Sector>, start: nat, n: nat, old_: seq<Dirent>, new_: seq<Dirent>)
    requires start + 4 <= |disk| && |old_| == |new_| == FS_DIR_ENTRIES && n <= 4
    requires forall s :: 0 <= s < n ==> disk[start + s] == DirSector(new_, s)
    requires forall s :: n <= s < 4 ==> disk[start + s] == DirSector(old_, s)
    ensures forall x :: 0 <= x < FS_DIR_ENTRIES ==> DirOf(disk, start)[x] == if x < 16 * n then new_[x] else old_[x]
  {
    hide DirOf, DirSector;
    forall x | 0 <= x < FS_DIR_ENTRIES
      ensures DirOf(disk, start)[x] == if x < 16 * n then new_[x] else old_[x]
    {
      DirAt(disk, start, if x / 16 < n then new_ else old_, x);
    }
  }

  /** The platter after `q` sectors of the metadata flush. */
  ghost predicate FlushedTo(v: Volume, fat: seq<u16>, dir: seq<Dirent>, q: nat, disk: seq<Sector>)
    requires v.Shaped() && |fat| == |v.fat| && |dir| == FS_DIR_ENTRIES
  {
    var f := v.sb.dataBlocks / 256 + 1;
    && |disk| == |v.disk| && disk[FS_START_LBA] == SuperblockSector(v.sb)
    && (forall s :: 0 <= s < v.sb.fatSectors && s < q ==> disk[v.sb.fatStart + s] == FatSector(fat, s))
    && (forall s :: 0 <= s < v.sb.fatSectors && s >= q ==> disk[v.sb.fatStart + s] == FatSector(v.fat, s))
    && (forall s :: 0 <= s < 4 && f + s < q ==> disk[v.sb.dirStart + s] == DirSector(dir, s))
    && (forall s :: 0 <= s < 4 && f + s >= q ==> disk[v.sb.dirStart + s] == DirSector(v.dir, s))
  }

  /** One more sector of the flush. */
  lemma FlushOne(v: Volume, fat: seq<u16>, dir: seq<Dirent>, q: nat, disk: seq<Sector>)
    requires v.Shaped() && |fat| == |v.fat| && |dir| == FS_DIR_ENTRIES && FlushedTo(v, fat, dir, q, disk)
    requires forall x :: v.sb.dataBlocks < x < |fat| ==> fat[x] == v.fat[x]
    requires q < |FatLog(v.sb, fat)| + 4
    ensures var w := (FatLog(v.sb, fat) + DirLog(v.sb, dir))[q];
      w.lba < |disk| && FlushedTo(v, fat, dir, q + 1, disk[w.lba := w.data])
  {
    hide FatSector, DirSector, SuperblockSector;
    var f := |FatLog(v.sb, fat)|;
    if q < f {
      FlushOneFat(v, fat, dir, q, disk);
    } else {
      if q < v.sb.fatSectors {
        TailSector(v, fat, q);
      }
      FlushOneDir(v, fat, dir, q, disk);
    }
  }

  lemma FlushOneFat(v: Volume, fat: seq<u16>, dir: seq<Dirent>, q: nat, disk: seq<Sector>)
    requires v.Shaped() && |fat| == |v.fat| && |dir| == FS_DIR_ENTRIES && FlushedTo(v, fat, dir, q, disk)
    requires q < |FatLog(v.sb, fat)|
    ensures var w := (FatLog(v.sb, fat) + DirLog(v.sb, dir))[q];
      w.lba < |disk| && FlushedTo(v, fat, dir, q + 1, disk[w.lba := w.data])
  {
    hide FatSector, DirSector, SuperblockSector;
    assert (FatLog(v.sb, fat) + DirLog(v.sb, dir))[q] == SectorWrite(v.sb.fatStart + q, FatSector(fat, q));
  }

  lemma FlushOneDir(v: Volume, fat: seq<u16>, dir: seq<Dirent>, q: nat, disk: seq<Sector>)
    requires v.Shaped() && |fat| == |v.fat| && |dir| == FS_DIR_ENTRIES && FlushedTo(v, fat, dir, q, disk)
    requires |FatLog(v.sb, fat)| <= q < |FatLog(v.sb, fat)| + 4
    requires q < v.sb.fatSectors ==> FatSector(v.fat, q) == FatSector(fat, q)
    ensures var w := (FatLog(v.sb, fat) + DirLog(v.sb, dir))[q];
      w.lba < |disk| && FlushedTo(v, fat, dir, q + 1, disk[w.lba := w.data])
  {
    hide FatSector, DirSector, SuperblockSector;
    var f := |FatLog(v.sb, fat)|;
    assert (FatLog(v.sb, fat) + DirLog(v.sb, dir))[q] == SectorWrite(v.sb.dirStart + (q - f), DirSector(dir, q - f));
  }

  lemma {:induction false} FlushSteps(v: Volume, fat: seq<u16>, dir: seq<Dirent>, q: nat, disk: seq<Sector>)
    requires v.Shaped() && |fat| == |v.fat| && |dir| == FS_DIR_ENTRIES
    requires FlushedTo(v, fat, dir, 0, disk)
    requires forall x :: v.sb.dataBlocks < x < |fat| ==> fat[x] == v.fat[x]
    requires q <= |FatLog(v.sb, fat)| + 4
    ensures FlushedTo(v, fat, dir, q, Replay(disk, (FatLog(v.sb, fat) + DirLog(v.sb, dir))[..q]))
    decreases q
  {
    hide FlushedTo, FatLog, DirLog;
    var log := FatLog(v.sb, fat) + DirLog(v.sb, dir);
    if q > 0 {
      FlushSteps(v, fat, dir, q - 1, disk);
      FlushOne(v, fat, dir, q - 1, Replay(disk, log[..q - 1]));
      assert log[..q][..q - 1] == log[..q - 1];
    }
  }

  lemma SyncedIsFlushedTo(v: Volume, fat: seq<u16>, dir: seq<Dirent>, disk: seq<Sector>)
    requires v.Shaped() && |fat| == |v.fat| && |dir| == FS_DIR_ENTRIES && Synced(v) && |disk| == |v.disk|
    requires forall l :: 0 <= l < v.sb.dataStart ==> disk[l] == v.disk[l]
    ensures FlushedTo(v, fat, dir, 0, disk)
  {
  }

  /** What a remount finds after `q` sectors of the flush. */
  lemma FlushedImage(v: Volume, fat: seq<u16>, dir: seq<Dirent>, q: nat, disk: seq<Sector>)
    requires v.Shaped() && |fat| == |v.fat| && |dir| == FS_DIR_ENTRIES && FlushedTo(v, fat, dir, q, disk)
    requires forall x :: v.sb.dataBlocks < x < |fat| ==> fat[x] == v.fat[x]
    ensures ParseSuperblock(disk[FS_START_LBA]) == v.sb
    ensures var m, f := MountImage(disk), v.sb.dataBlocks / 256 + 1;
      && m.sb == v.sb
      && (forall x :: 0 <= x < |v.fat| ==> m.fat[x] == if x < 256 * q then fat[x] else v.fat[x])
      && (forall x :: 0 <= x < FS_DIR_ENTRIES ==> m.dir[x] == if f + x / 16 < q then dir[x] else v.dir[x])
  {
    hide FatSector, DirSector, SuperblockSector, ParseSuperblock, FatOf, DirOf;
    SuperblockRoundTrip(v.sb);
    var f := v.sb.dataBlocks / 256 + 1;
    PartialFat(disk, v.sb.fatStart, v.sb.fatSectors, Min(q, v.sb.fatSectors), v.fat, fat);
    PartialDir(disk, v.sb.dirStart, Max(0, Min(q - f, 4)), v.dir, dir);
  }

  lemma SameDirSector(f: seq<Dirent>, g: seq<Dirent>, s: nat)
    requires |f| == |g| == FS_DIR_ENTRIES && s < 4
    requires forall x :: s * 16 <= x < s * 16 + 16 ==> f[x] == g[x]
    ensures DirSector(f, s) == DirSector(g, s)
  {
    forall j | 0 <= j < 512 ensures DirSector(f, s)[j] == DirSector(g, s)[j] {
      assert s * 16 <= s * 16 + j / 32 < s * 16 + 16;
    }
  }

  /** Whatever the stop, a remount's caches agree with the platter again. */
  lemma FlushedIsSynced(v: Volume, fat: seq<u16>, dir: seq<Dirent>, q: nat, disk: seq<Sector>, m: Volume)
    requires v.Shaped() && |fat| == |v.fat| && |dir| == FS_DIR_ENTRIES && FlushedTo(v, fat, dir, q, disk)
    requires m.Shaped() && m.sb == v.sb && m.disk == disk
    requires forall x :: 0 <= x < |v.fat| ==> m.fat[x] == if x < 256 * q then fat[x] else v.fat[x]
    requires forall x :: 0 <= x < FS_DIR_ENTRIES ==>
      m.dir[x] == if v.sb.dataBlocks / 256 + 1 + x / 16 < q then dir[x] else v.dir[x]
    ensures Synced(m)
  {
    hide FatSector, DirSector, SuperblockSector;
    forall s | 0 <= s < v.sb.fatSectors ensures disk[v.sb.fatStart + s] == FatSector(m.fat, s) {
      SameFatSector(m.fat, if s < q then fat else v.fat, s);
    }
    forall s | 0 <= s < 4 ensures disk[v.sb.dirStart + s] == DirSector(m.dir, s) {
      SameDirSector(m.dir, if v.sb.dataBlocks / 256 + 1 + s < q then dir else v.dir, s);
    }
  }

  /** The stop came after slot `i`'s directory sector. */
  predicate Settled(v: Volume, i: nat, q: nat) {
    q > v.sb.dataBlocks / 256 + 1 + i / 16
  }

  /** What a remount finds when the flush of a replaced slot stops after `q`
      sectors: the old volume with a half-new FAT, or the new one. */
  lemma FlushStop(v: Volume, w: Volume, i: nat, e: Dirent, c: seq<u16>, q: nat, disk: seq<Sector>)
    requires i < FS_DIR_ENTRIES && v.Shaped() && ReplacesSlot(v, w, i, e, c)
    requires FlushedTo(v, w.fat, w.dir, q, disk)
    requires Inv(v)
    ensures |disk| == |v.disk| && ParseSuperblock(disk[FS_START_LBA]) == v.sb && Synced(MountImage(disk))
    ensures MountImage(disk).disk == disk
    ensures Settled(v, i, q) ==> MountImage(disk) == w.(disk := disk)
    ensures !Settled(v, i, q) ==> HalfFlushed(v, w, 256 * q, MountImage(disk))
  {
    hide Inv, FlushedTo, FatOf, DirOf, ParseSuperblock, Synced, Linked, Cleared;
    TailUntouched(v, w, i, e, c);
    FlushedSize(v, w.fat, w.dir, q, disk);
    FlushedImage(v, w.fat, w.dir, q, disk);
    var m := MountImage(disk);
    FlushedIsSynced(v, w.fat, w.dir, q, disk, m);
    if Settled(v, i, q) {
      AllNew(v, w.fat, m.fat, q);
      assert m.dir == w.dir;
    } else {
      assert m.dir == v.dir;
    }
  }

  lemma AllNew(v: Volume, fat: seq<u16>, half: seq<u16>, q: nat)
    requires |v.fat| == |fat| == |half| && q > v.sb.dataBlocks / 256
    requires forall x :: v.sb.dataBlocks < x < |fat| ==> fat[x] == v.fat[x]
    requires forall x :: 0 <= x < |v.fat| ==> half[x] == if x < 256 * q then fat[x] else v.fat[x]
    ensures half == fat
  {
  }

  lemma FlushedSize(v: Volume, fat: seq<u16>, dir: seq<Dirent>, q: nat, disk: seq<Sector>)
    requires v.Shaped() && |fat| == |v.fat| && |dir| == FS_DIR_ENTRIES && FlushedTo(v, fat, dir, q, disk)
    ensures |disk| == |v.disk|
  {
  }

  /** What the remounted volume has lost for good: the blocks in use in the
      half-new FAT that the slot's chain does not reach. */
  ghost function Lost(v: Volume, i: nat, c: seq<u16>, q: nat): int
    requires i < |v.dir|
  {
    if Settled(v, i, q) then 0
    else |Spliced(v.ChainOf(i), c, 256 * q)| - |RejoinedChain(v, i, c, 256 * q)|
  }

  lemma CapacityIgnoresDisk(v: Volume, disk: seq<Sector>)
    requires v.Shaped() && |disk| == |v.disk|
    ensures Capacity(v.(disk := disk)) == Capacity(v)
  {
    var w := v.(disk := disk);
    hide FreeCount, ChainTotal;
    ChainTotalReplaced(v, w, 0, |v.dir|);
  }

  /** The flush of a replaced slot stopped after `q` sectors: the remounted
      volume is consistent if and only if the slot's directory sector was
      written or its old entry still leads to a complete chain. */
  lemma FlushStopIff(v: Volume, w: Volume, i: nat, e: Dirent, c: seq<u16>, q: nat, disk: seq<Sector>)
    requires i < FS_DIR_ENTRIES && v.Shaped() && ReplacesSlot(v, w, i, e, c)
    requires |w.disk| == |v.disk| && |w.fat| == |v.fat|
    requires FlushedTo(v, w.fat, w.dir, q, disk)
    requires Inv(v)
    ensures ParseSuperblock(disk[FS_START_LBA]) == v.sb && Synced(MountImage(disk))
    ensures Inv(MountImage(disk)) <==> Settled(v, i, q) || Rejoins(v, i, c, 256 * q)
    ensures Inv(MountImage(disk)) ==> Capacity(MountImage(disk)) + Lost(v, i, c, q) == Capacity(v)
  {
    hide Inv, FlushedTo, FatOf, DirOf, ParseSuperblock, Synced, Rejoins, ReplacesSlot, MountImage, Capacity;
    hide Spliced, RejoinedChain;
    FlushStop(v, w, i, e, c, q, disk);
    if Settled(v, i, q) {
      ReplaceKeepsInv(v, w, i, e, c);
      ReplaceKeepsCapacity(v, w, i, e, c);
      InvIgnoresDisk(w, disk);
      CapacityIgnoresDisk(w, disk);
    } else {
      HalfFlushedIff(v, w, i, e, c, 256 * q, MountImage(disk));
      if Rejoins(v, i, c, 256 * q) {
        HalfCapacity(v, w, i, e, c, 256 * q, MountImage(disk));
      }
    }
  }

  lemma SameMetadataFitting(v: Volume, disk: seq<Sector>)
    requires Inv(v) && Fitting(v) && |disk| == |v.disk|
    ensures Inv(v.(disk := disk)) && Fitting(v.(disk := disk))
  {
    InvIgnoresDisk(v, disk);
    hide Inv;
    forall i | 0 <= i < FS_DIR_ENTRIES ensures v.(disk := disk).ChainOf(i) == v.ChainOf(i) {
    }
  }

  /** The slot's chain, in such a volume, is no longer than the old file needs. */
  ghost predicate Whole(v: Volume, i: nat, c: seq<u16>, t: nat)
    requires i < |v.dir|
  {
    Used(v.dir[i]) ==> |RejoinedChain(v, i, c, t)| <= BlocksFor(v.dir[i].size)
  }

  /** Files fit in a half-flushed volume if the slot's chain does. */
  lemma HalfFits(v: Volume, i: nat, c: seq<u16>, t: nat, m: Volume)
    requires v.Shaped() && m.Shaped() && i < FS_DIR_ENTRIES && m.dir == v.dir && Fitting(v)
    requires m.ChainOf(i) == RejoinedChain(v, i, c, t)
    requires forall j :: 0 <= j < FS_DIR_ENTRIES && j != i ==> m.ChainOf(j) == v.ChainOf(j)
    ensures Fitting(m) <==> Whole(v, i, c, t)
  {
    hide RejoinedChain, Chain, BlocksFor;
    if Whole(v, i, c, t) {
      forall j | 0 <= j < FS_DIR_ENTRIES && Used(m.dir[j]) ensures |m.ChainOf(j)| <= BlocksFor(m.dir[j].size) {
        assert |v.ChainOf(j)| <= BlocksFor(v.dir[j].size);
      }
    }
  }

  // --- where the old entry leads to no complete chain ------------------------

  /** It then leads to a block that the half-new table has free: its first one,
      or the one at which the new chain crosses the boundary. */
  lemma NotJoined(old_: seq<u16>, new_: seq<u16>, half: seq<u16>, was: seq<u16>, c: seq<u16>, t: nat, blocks: nat)
    returns (d: seq<u16>, x: u16)
    requires Halves(old_, new_, half, was, c, t) && !Joins(was, c, t) && blocks < |half|
    requires forall y :: y in was || y in c ==> 1 <= y <= blocks
    ensures |was| > 0 && x < |half| && LooseEnd(half, blocks, d, x) && |d| > 0 && d[0] == was[0]
    ensures forall y :: y in d ==> y in was || y in c
    ensures was[0] !in c ==> x == was[0]
  {
    hide IndexIn, Below, Onward, Halves, LooseEnd;
    NotJoinedStarts(was, c, t);
    if was[0] !in c {
      d, x := [was[0]], was[0];
      FirstFreed(old_, new_, half, was, c, t, blocks);
    } else {
      d, x := CrossesToFree(old_, new_, half, was, c, t, blocks);
    }
  }

  lemma FirstFreed(old_: seq<u16>, new_: seq<u16>, half: seq<u16>, was: seq<u16>, c: seq<u16>, t: nat, blocks: nat)
    requires Halves(old_, new_, half, was, c, t) && |was| > 0 && was[0] < t && was[0] !in c
    requires 1 <= was[0] <= blocks < |half|
    ensures LooseEnd(half, blocks, [was[0]], was[0])
  {
    hide Halves;
    if half[was[0]] != FAT_FREE {
      HalfFreed(old_, new_, half, was, c, t, was[0]);
    }
  }

  lemma CrossesToFree(old_: seq<u16>, new_: seq<u16>, half: seq<u16>, was: seq<u16>, c: seq<u16>, t: nat, blocks: nat)
    returns (d: seq<u16>, x: u16)
    requires Halves(old_, new_, half, was, c, t) && !Joins(was, c, t) && blocks < |half|
    requires |was| > 0 && was[0] < t && was[0] in c
    requires forall y :: y in was || y in c ==> 1 <= y <= blocks
    ensures x < |half| && LooseEnd(half, blocks, d, x) && |d| > 0 && d[0] == was[0]
    ensures forall y :: y in d ==> y in c
  {
    hide IndexIn, Below, Onward, Halves, LooseEnd, Ascending, Next, Joins;
    x := Onward(c, t);
    HalfIsNew(old_, new_, half, was, c, t);
    NotJoinedStarts(was, c, t);
    FirstPiece(was, c, t);
    if half[x] != FAT_FREE {
      HalfFreed(old_, new_, half, was, c, t, x);
    }
    var k, n := IndexIn(c, was[0]), |Below(c, t)|;
    PieceOf(half, c, k, n, x);
    PieceIn(c, k, n, x, blocks, t);
    LooseJoined(half, blocks, c[k..n], x);
    d := c[k..n] + [x];
  }

  lemma PieceIn(c: seq<u16>, k: nat, n: nat, x: u16, blocks: nat, t: nat)
    requires k < n <= |c| && x in c && x >= t && (forall j :: 0 <= j < n ==> c[j] < t)
    requires forall y :: y in c ==> 1 <= y <= blocks
    ensures var b := c[k..n];
      && b[0] == c[k] && (forall j :: 0 <= j < |b| ==> 1 <= b[j] <= blocks && b[j] < x)
      && forall y :: y in b + [x] ==> y in c
  {
    var b := c[k..n];
    assert forall j :: 0 <= j < |b| ==> b[j] == c[k + j] && c[k + j] in c;
  }

  lemma LooseJoined(fat: seq<u16>, blocks: nat, b: seq<u16>, x: u16)
    requires blocks < |fat| && 1 <= x <= blocks && fat[x] == FAT_FREE
    requires Ascending(b) && forall j :: 0 <= j < |b| ==> 1 <= b[j] <= blocks && b[j] < x
    requires forall j :: 0 <= j < |b| ==> fat[b[j]] == if j + 1 < |b| then b[j + 1] else x
    ensures LooseEnd(fat, blocks, b + [x], x)
  {
    var d := b + [x];
    assert |d| == |b| + 1;
    forall j | 0 <= j < |b| ensures fat[d[j]] == d[j + 1] {
      assert fat[b[j]] == if j + 1 < |b| then b[j + 1] else x;
      assert d[j] == b[j] && d[j + 1] == if j + 1 < |b| then b[j + 1] else x;
    }
    assert Ascending(d);
  }

  lemma HalfDangles(v: Volume, w: Volume, i: nat, e: Dirent, c: seq<u16>, t: nat, m: Volume) returns (x: u16)
    requires i < FS_DIR_ENTRIES && v.Shaped() && ReplacesSlot(v, w, i, e, c) && HalfFlushed(v, w, t, m)
    requires !Rejoins(v, i, c, t)
    requires Inv(v)
    ensures Dangles(m, i, x)
    ensures |v.ChainOf(i)| > 0 && (v.ChainOf(i)[0] !in c ==> x == v.ChainOf(i)[0])
  {
    hide ReplacesSlot, Joins, Chain, Halves, Linked, Cleared, Inv, NamesOk, LinksOk, ChainsDisjoint, SlotOk;
    hide HalfFlushed, LooseEnd, Dangles;
    InvShaped(v);
    NewChain(v, w, i, e, c);
    HalfShape(v, w, t, m);
    VolumeHalves(v, w, i, e, c, t, m);
    OldChain(v, i);
    var was, d := v.ChainOf(i), [];
    NotJoinedStarts(was, c, t);
    BothInRange(was, c, v.sb.dataBlocks);
    d, x := NotJoined(v.fat, w.fat, m.fat, was, c, t, v.sb.dataBlocks);
    LooseChain(m.fat, v.sb.dataBlocks, d, x);
    HalfLinks(v, w, i, e, c, t, m);
    HalfDisjoint(v, w, i, e, c, t, m);
    HalfOthersOk(v, w, i, e, c, t, m);
    SameDirNames(v, m);
    TheseDangle(m, i, x, d);
  }

  lemma HalfOthersOk(v: Volume, w: Volume, i: nat, e: Dirent, c: seq<u16>, t: nat, m: Volume)
    requires i < FS_DIR_ENTRIES && v.Shaped() && ReplacesSlot(v, w, i, e, c) && HalfFlushed(v, w, t, m)
    requires Inv(v)
    ensures forall j :: 0 <= j < FS_DIR_ENTRIES && j != i ==> SlotOk(m, j)
  {
    hide ReplacesSlot, Inv, Chain, IsChain;
    forall j | 0 <= j < FS_DIR_ENTRIES && j != i ensures SlotOk(m, j) {
      HalfOthers(v, w, i, e, c, t, m, j);
    }
  }

  lemma BothInRange(was: seq<u16>, c: seq<u16>, blocks: nat)
    requires forall k :: 0 <= k < |was| ==> 1 <= was[k] <= blocks
    requires forall k :: 0 <= k < |c| ==> 1 <= c[k] <= blocks
    ensures forall y :: y in was || y in c ==> 1 <= y <= blocks
  {
  }

  lemma TheseDangle(m: Volume, i: nat, x: u16, d: seq<u16>)
    requires m.Shaped() && NamesOk(m) && LinksOk(m.fat, m.sb.dataBlocks) && ChainsDisjoint(m)
    requires i < FS_DIR_ENTRIES && Used(m.dir[i]) && m.ChainOf(i) == d
    requires x < |m.fat| && LooseEnd(m.fat, m.sb.dataBlocks, d, x) && m.dir[i].first == d[0]
    requires forall j :: 0 <= j < FS_DIR_ENTRIES && j != i ==> SlotOk(m, j)
    ensures Dangles(m, i, x)
  {
  }

  lemma NotJoinedStarts(was: seq<u16>, c: seq<u16>, t: nat)
    requires !Joins(was, c, t)
    ensures |was| > 0 && was[0] < t
    ensures was[0] in c ==> Onward(c, t) != FAT_END && Onward(c, t) !in was
  {
  }

  lemma SameDirNames(v: Volume, m: Volume)
    requires NamesOk(v) && m.dir == v.dir
    ensures NamesOk(m)
  {
  }

  /** Exactly the stops after which every run acts as the bounded map does, and
      what they lose. */
  lemma FlushStopRecovers(v: Volume, w: Volume, i: nat, e: Dirent, c: seq<u16>, q: nat, disk: seq<Sector>)
    requires i < FS_DIR_ENTRIES && v.Shaped() && ReplacesSlot(v, w, i, e, c)
    requires |w.disk| == |v.disk| && |w.fat| == |v.fat|
    requires FlushedTo(v, w.fat, w.dir, q, disk) && Fitting(w)
    requires Good(v)
    ensures ParseSuperblock(disk[FS_START_LBA]) == v.sb && Mountable(MountImage(disk))
    ensures var m := MountImage(disk);
      && (RefinesMap(m) <==> Settled(v, i, q) || (Rejoins(v, i, c, 256 * q) && Whole(v, i, c, 256 * q)))
      && (RefinesMap(m) ==> Capacity(m) + Lost(v, i, c, q) == Capacity(v))
  {
    hide Good, Inv, FlushedTo, FatOf, DirOf, ParseSuperblock, Synced, Rejoins, ReplacesSlot, MountImage, Fitting, Whole;
    hide Capacity, Spliced, RejoinedChain, Mountable, RefinesMap, HalfFlushed, Dangles, Lost, Settled;
    GoodParts(v);
    FlushStop(v, w, i, e, c, q, disk);
    FlushStopIff(v, w, i, e, c, q, disk);
    var m := MountImage(disk);
    SyncedIsMountable(m);
    if Settled(v, i, q) {
      ReplaceKeepsInv(v, w, i, e, c);
      SameMetadataFitting(w, disk);
      RunsAgreeIff(m);
    } else if Rejoins(v, i, c, 256 * q) {
      HalfShape(v, w, 256 * q, m);
      HalfFlushedIff(v, w, i, e, c, 256 * q, m);
      HalfFits(v, i, c, 256 * q, m);
      RunsAgreeIff(m);
    } else {
      var x := HalfDangles(v, w, i, e, c, 256 * q, m);
      DanglingDisagrees(m, i, x);
    }
  }

  lemma HalfShape(v: Volume, w: Volume, t: nat, m: Volume)
    requires v.Shaped() && |w.fat| == |v.fat| && HalfFlushed(v, w, t, m)
    ensures m.Shaped() && m.dir == v.dir && m.sb == v.sb && |m.fat| == |v.fat|
  {
  }

  // --- fs_delete ------------------------------------------------------------

  /** fs_delete stopped after `k` sector writes: the remounted volume is
      consistent if and only if the file had no block, its first block's FAT
      sector was not yet written, or its directory sector was. */
  lemma DeleteStopIff(v: Volume, name: CString, k: nat)
    requires v.Shaped() && Find(v.dir, name) >= 0 && k <= |FsDelete(v, name).log|
    requires Inv(v) && Synced(v)
    ensures var disk, i := Replay(v.disk, FsDelete(v, name).log[..k]), Find(v.dir, name);
      && ParseSuperblock(disk[FS_START_LBA]) == v.sb
      && Synced(MountImage(disk))
      && (Inv(MountImage(disk)) <==>
            |v.ChainOf(i)| == 0 || 256 * k <= v.ChainOf(i)[0] || Settled(v, i, k))
      && (Inv(MountImage(disk)) ==> Capacity(MountImage(disk)) == Capacity(v))
  {
    hide Inv, Synced, ReplacesSlot, MountImage, FlushedTo, ParseSuperblock, FsDelete, Capacity, Replay;
    hide Rejoins, Whole, Lost, Chain;
    var w, i := FsDelete(v, name).vol, Find(v.dir, name);
    DeleteReplaces(v, name);
    DeleteFlushes(v, name, k);
    NothingJoined(v, i, k);
    SettledLoses(v, i, [], k);
    FlushStopIff(v, w, i, BLANK, [], k, Replay(v.disk, FsDelete(v, name).log[..k]));
  }

  lemma DeleteFlushes(v: Volume, name: CString, k: nat)
    requires v.Shaped() && Find(v.dir, name) >= 0 && k <= |FsDelete(v, name).log|
    requires Inv(v) && Synced(v)
    ensures var w := FsDelete(v, name).vol;
      && w.Shaped() && w.sb == v.sb && |w.disk| == |v.disk|
      && FlushedTo(v, w.fat, w.dir, k, Replay(v.disk, FsDelete(v, name).log[..k]))
  {
    var w, i := FsDelete(v, name).vol, Find(v.dir, name);
    DeleteReplaces(v, name);
    TailUntouched(v, w, i, BLANK, []);
    DeletedLog(v, name);
    hide Inv, Synced, ReplacesSlot, FlushedTo, FsDelete;
    SyncedIsFlushedTo(v, w.fat, w.dir, v.disk);
    FlushSteps(v, w.fat, w.dir, k, v.disk);
  }

  lemma DeletedLog(v: Volume, name: CString)
    requires v.Shaped() && Find(v.dir, name) >= 0
    ensures var r := FsDelete(v, name);
      r.log == FatLog(v.sb, r.vol.fat) + DirLog(v.sb, r.vol.dir) && |r.vol.disk| == |v.disk|
  {
  }

  lemma SettledLoses(v: Volume, i: nat, c: seq<u16>, q: nat)
    requires i < |v.dir|
    ensures Settled(v, i, q) ==> Lost(v, i, c, q) == 0
  {
  }

  /** From exactly those stops every later run acts on the map the remounted
      volume stands for as the bounded map does, and no block is lost. */
  lemma DeleteRecovers(v: Volume, name: CString, k: nat)
    requires v.Shaped() && Find(v.dir, name) >= 0 && k <= |FsDelete(v, name).log|
    requires Good(v)
    ensures var disk, was := Replay(v.disk, FsDelete(v, name).log[..k]), v.ChainOf(Find(v.dir, name));
      && ParseSuperblock(disk[FS_START_LBA]) == v.sb && Mountable(MountImage(disk))
      && (RefinesMap(MountImage(disk)) <==> |was| == 0 || 256 * k <= was[0] || Settled(v, Find(v.dir, name), k))
      && (RefinesMap(MountImage(disk)) ==> Capacity(MountImage(disk)) == Capacity(v))
  {
    hide Good, Inv, Synced, ReplacesSlot, MountImage, FlushedTo, ParseSuperblock, Fitting, FsDelete, Capacity, Replay;
    hide Rejoins, Whole, Lost, Chain, Mountable, RefinesMap;
    GoodParts(v);
    var w, i := FsDelete(v, name).vol, Find(v.dir, name);
    DeleteReplaces(v, name);
    DeleteKeepsInv(v, name);
    DeleteFlushes(v, name, k);
    FlushStopRecovers(v, w, i, BLANK, [], k, Replay(v.disk, FsDelete(v, name).log[..k]));
    NothingJoined(v, i, k);
    if Rejoins(v, i, [], 256 * k) {
      NothingWhole(v, i, k);
    }
    SettledLoses(v, i, [], k);
  }

  lemma NothingWhole(v: Volume, i: nat, q: nat)
    requires v.Shaped() && i < FS_DIR_ENTRIES && Used(v.dir[i]) && Rejoins(v, i, [], 256 * q)
    requires Good(v)
    ensures Whole(v, i, [], 256 * q)
  {
    hide Inv, Synced, Chain, Joins, Joined;
    OldChain(v, i);
    JoinsNothing(v.ChainOf(i), 256 * q);
  }

  /** After every other stop the entry names a free block; a file then written
      that reaches this block loses blocks when the deletion is repeated, and
      some file does. */
  lemma StoppedDeleteFreesOther(v: Volume, a: CString, k: nat)
    requires v.Shaped() && Find(v.dir, a) >= 0 && k <= |FsDelete(v, a).log|
    requires var was := v.ChainOf(Find(v.dir, a));
      |was| > 0 && was[0] < 256 * k && !Settled(v, Find(v.dir, a), k)
    requires Inv(v) && Synced(v)
    ensures var disk, i := Replay(v.disk, FsDelete(v, a).log[..k]), Find(v.dir, a);
      && ParseSuperblock(disk[FS_START_LBA]) == v.sb && MountImage(disk).dir == v.dir
      && Dangles(MountImage(disk), i, v.ChainOf(i)[0])
      && exists b, data :: Harms(MountImage(disk), a, v.ChainOf(i)[0], b, data)
  {
    hide Inv, Synced, ReplacesSlot, MountImage, FlushedTo, ParseSuperblock, FsDelete, Replay, Rejoins, Chain;
    hide Dangles, Harms;
    var w, i, disk := FsDelete(v, a).vol, Find(v.dir, a), Replay(v.disk, FsDelete(v, a).log[..k]);
    DeleteReplaces(v, a);
    DeleteFlushes(v, a, k);
    FlushStop(v, w, i, BLANK, [], k, disk);
    NothingJoined(v, i, k);
    var m := MountImage(disk);
    var x := HalfDangles(v, w, i, BLANK, [], 256 * k, m);
    var b, data := SomeoneIsHarmed(m, a, x);
  }

  /** Without a new chain only an untouched old one is complete. */
  lemma NothingJoined(v: Volume, i: nat, q: nat)
    requires i < FS_DIR_ENTRIES && v.Shaped() && Used(v.dir[i])
    requires Inv(v)
    ensures var was := v.ChainOf(i);
      && (Rejoins(v, i, [], 256 * q) <==> |was| == 0 || 256 * q <= was[0])
      && (Rejoins(v, i, [], 256 * q) ==> Lost(v, i, [], q) == 0)
  {
    hide Inv, Chain, Joins, Joined, Spliced;
    OldChain(v, i);
    JoinsNothing(v.ChainOf(i), 256 * q);
  }

  lemma JoinsNothing(was: seq<u16>, t: nat)
    requires Ascending(was)
    ensures Joins(was, [], t) <==> |was| == 0 || t <= was[0]
    ensures Joins(was, [], t) ==> Joined(was, [], t) == was && Spliced(was, [], t) == was
  {
    assert Below([], t) == [];
    if Joins(was, [], t) {
      assert Cut(was, t) == 0 && From(was, t) == was;
    }
  }

  // --- fs_write -------------------------------------------------------------

  /** The chain fs_write leaves in the slot. */
  ghost function LeftChain(v: Volume, name: CString, data: seq<byte>): seq<u16>
    requires v.Shaped() && |data| < 0x1_0000_0000 && SlotFor(v.dir, name) >= 0
  {
    if FsWrite(v, name, data).ok then ChainFor(v, name, |data|) else []
  }

  lemma WriteSlot(v: Volume, name: CString, data: seq<byte>) returns (e: Dirent)
    requires v.Shaped() && |data| < 0x1_0000_0000 && ValidName(name) && SlotFor(v.dir, name) >= 0
    requires Inv(v)
    ensures ReplacesSlot(v, FsWrite(v, name, data).vol, SlotFor(v.dir, name), e, LeftChain(v, name, data))
  {
    if FsWrite(v, name, data).ok {
      WriteReplaces(v, name, data);
      e := Filled(EntryFor(v.dir, name), ChainFor(v, name, |data|), |data|);
    } else {
      FullWriteReplaces(v, name, data);
      e := Filled(EntryFor(v.dir, name), [], 0);
    }
  }

  /** After the data phase: the platter `q` metadata sectors later. */
  lemma WriteFlushes(v: Volume, name: CString, data: seq<byte>, k: nat)
    requires v.Shaped() && |data| < 0x1_0000_0000 && ValidName(name) && SlotFor(v.dir, name) >= 0
    requires |ChainFor(v, name, |data|)| <= k <= |FsWrite(v, name, data).log|
    requires Inv(v) && Synced(v)
    ensures var w := FsWrite(v, name, data).vol;
      && w.Shaped() && w.sb == v.sb && |w.disk| == |v.disk|
      && FlushedTo(v, w.fat, w.dir, k - |ChainFor(v, name, |data|)|, Replay(v.disk, FsWrite(v, name, data).log[..k]))
  {
    var w, c := FsWrite(v, name, data).vol, ChainFor(v, name, |data|);
    WriteKeepsTail(v, name, data);
    WriteLogParts(v, name, data);
    hide Inv, FsWrite, ChainFor, Synced, FlushedTo, FatLog, DirLog, Replay;
    var a, b := DataLog(v.sb, c, data), FatLog(v.sb, w.fat) + DirLog(v.sb, w.dir);
    var q := k - |a|;
    var mid := Replay(v.disk, a);
    assert (a + b)[..k] == a + b[..q];
    ReplayConcat(v.disk, a, b[..q]);
    DataKeepsMetadata(v.disk, v.sb, c, data);
    SyncedIsFlushedTo(v, w.fat, w.dir, mid);
    FlushSteps(v, w.fat, w.dir, q, mid);
  }

  /** fs_write stopped among its data sectors: the old metadata, over a changed platter. */
  lemma DataStop(v: Volume, name: CString, data: seq<byte>, k: nat)
    requires v.Shaped() && |data| < 0x1_0000_0000 && ValidName(name) && SlotFor(v.dir, name) >= 0
    requires k <= |ChainFor(v, name, |data|)| && k <= |FsWrite(v, name, data).log|
    requires Inv(v) && Synced(v)
    ensures var disk := Replay(v.disk, FsWrite(v, name, data).log[..k]);
      && |disk| == |v.disk| && ParseSuperblock(disk[FS_START_LBA]) == v.sb && MountImage(disk) == v.(disk := disk)
      && Inv(MountImage(disk)) && Synced(MountImage(disk)) && Capacity(MountImage(disk)) == Capacity(v)
      && (Fitting(v) ==> Fitting(MountImage(disk)))
  {
    hide Inv, FsWrite, ChainFor, Replay, MountImage, ParseSuperblock, Capacity, Synced, Fitting;
    var disk := Replay(v.disk, FsWrite(v, name, data).log[..k]);
    WriteLogParts(v, name, data);
    DataPhaseCrash(v, name, data, k);
    DataStopSectors(v, name, data, k);
    SameMetadataSynced(v, disk);
    CapacityIgnoresDisk(v, disk);
    if Fitting(v) {
      SameMetadataFitting(v, disk);
    }
  }

  lemma SameMetadataSynced(v: Volume, disk: seq<Sector>)
    requires v.Shaped() && Synced(v) && |disk| == |v.disk|
    requires forall l :: 0 <= l < v.sb.dataStart ==> disk[l] == v.disk[l]
    ensures v.(disk := disk).Shaped() && Synced(v.(disk := disk))
  {
    hide FatSector, DirSector, SuperblockSector;
  }

  lemma DataStopSectors(v: Volume, name: CString, data: seq<byte>, k: nat)
    requires v.Shaped() && |data| < 0x1_0000_0000 && ValidName(name) && SlotFor(v.dir, name) >= 0
    requires k <= |ChainFor(v, name, |data|)| && k <= |FsWrite(v, name, data).log|
    ensures var disk := Replay(v.disk, FsWrite(v, name, data).log[..k]);
      |disk| == |v.disk| && forall l :: 0 <= l < v.sb.dataStart ==> disk[l] == v.disk[l]
  {
    WriteLogParts(v, name, data);
    hide FsWrite, ChainFor, Replay, FatLog, DirLog, Chunk;
    var c, r := ChainFor(v, name, |data|), FsWrite(v, name, data);
    assert r.log[..k] == DataLog(v.sb, c, data)[..k];
    DataLogPrefix(v.sb, c, data, k);
    DataKeepsMetadata(v.disk, v.sb, c[..k], data);
  }

  /** The number of metadata sectors written by then. */
  function Flushed(k: nat, blocks: nat): nat {
    if k <= blocks then 0 else k - blocks
  }

  /** Before the first of them the old chain is all there. */
  lemma NothingFlushed(v: Volume, i: nat, c: seq<u16>)
    requires v.Shaped() && i < FS_DIR_ENTRIES
    requires Inv(v)
    ensures !Settled(v, i, 0) && Rejoins(v, i, c, 0) && Lost(v, i, c, 0) == 0
    ensures Fitting(v) ==> Whole(v, i, c, 0)
  {
    OldChain(v, i);
    hide Inv, Chain;
    assert Cut(c, 0) == 0 && Cut(v.ChainOf(i), 0) == 0;
  }

  /** fs_write stopped after `k` sector writes: the remounted volume is
      consistent if and only if the slot's directory sector was written or its
      old entry still leads to a complete chain. */
  lemma WriteStopIff(v: Volume, name: CString, data: seq<byte>, k: nat)
    requires v.Shaped() && |data| < 0x1_0000_0000 && ValidName(name) && SlotFor(v.dir, name) >= 0
    requires k <= |FsWrite(v, name, data).log|
    requires Inv(v) && Synced(v)
    ensures var disk, i := Replay(v.disk, FsWrite(v, name, data).log[..k]), SlotFor(v.dir, name);
      var q := Flushed(k, |ChainFor(v, name, |data|)|);
      && ParseSuperblock(disk[FS_START_LBA]) == v.sb
      && Synced(MountImage(disk))
      && (Inv(MountImage(disk)) <==> Settled(v, i, q) || Rejoins(v, i, LeftChain(v, name, data), 256 * q))
      && (Inv(MountImage(disk)) ==>
           Capacity(MountImage(disk)) + Lost(v, i, LeftChain(v, name, data), q) == Capacity(v))
  {
    hide Inv, FsWrite, ChainFor, Synced, FlushedTo, Replay, ReplacesSlot, Rejoins, MountImage, ParseSuperblock;
    hide LeftChain, Lost, Capacity, SlotFor, Settled;
    if k < |ChainFor(v, name, |data|)| {
      DataStop(v, name, data, k);
      NothingFlushed(v, SlotFor(v.dir, name), LeftChain(v, name, data));
    } else {
      WriteFlushes(v, name, data, k);
      var e := WriteSlot(v, name, data);
      FlushStopIff(v, FsWrite(v, name, data).vol, SlotFor(v.dir, name), e, LeftChain(v, name, data),
                   k - |ChainFor(v, name, |data|)|, Replay(v.disk, FsWrite(v, name, data).log[..k]));
    }
  }

  /** After exactly these stops every later run acts as the bounded map does, its
      bound less the blocks that were lost: the slot's directory sector was
      written, or its old entry leads to a complete chain that is no longer than
      the old file needs. The old file may have become shorter. */
  lemma WriteRecovers(v: Volume, name: CString, data: seq<byte>, k: nat)
    requires v.Shaped() && |data| < 0x1_0000_0000 && ValidName(name) && SlotFor(v.dir, name) >= 0
    requires k <= |FsWrite(v, name, data).log|
    requires Good(v)
    ensures var disk, i := Replay(v.disk, FsWrite(v, name, data).log[..k]), SlotFor(v.dir, name);
      var q, c := Flushed(k, |ChainFor(v, name, |data|)|), LeftChain(v, name, data);
      && ParseSuperblock(disk[FS_START_LBA]) == v.sb && Mountable(MountImage(disk))
      && (RefinesMap(MountImage(disk)) <==>
           Settled(v, i, q) || (Rejoins(v, i, c, 256 * q) && Whole(v, i, c, 256 * q)))
      && (RefinesMap(MountImage(disk)) ==> Capacity(MountImage(disk)) + Lost(v, i, c, q) == Capacity(v))
  {
    hide Good, Inv, FsWrite, ChainFor, Synced, FlushedTo, Replay, ReplacesSlot, Rejoins, MountImage, ParseSuperblock;
    hide LeftChain, Whole, Lost, Capacity, Fitting, SlotFor, Settled, Mountable, RefinesMap;
    GoodParts(v);
    if k < |ChainFor(v, name, |data|)| {
      DataStop(v, name, data, k);
      NothingFlushed(v, SlotFor(v.dir, name), LeftChain(v, name, data));
      SyncedIsMountable(MountImage(Replay(v.disk, FsWrite(v, name, data).log[..k])));
      RunsAgreeIff(MountImage(Replay(v.disk, FsWrite(v, name, data).log[..k])));
    } else {
      WriteKeepsInv(v, name, data);
      WriteFlushes(v, name, data, k);
      var e := WriteSlot(v, name, data);
      FlushStopRecovers(v, FsWrite(v, name, data).vol, SlotFor(v.dir, name), e, LeftChain(v, name, data),
                        k - |ChainFor(v, name, |data|)|, Replay(v.disk, FsWrite(v, name, data).log[..k]));
    }
  }

  /** Creating a file, stopped anywhere, leaves a consistent volume. Until the
      directory sector is written, the new blocks whose FAT sectors were written
      are lost, and nothing else is. */
  lemma CreateStopIff(v: Volume, name: CString, data: seq<byte>, k: nat)
    requires v.Shaped() && |data| < 0x1_0000_0000 && ValidName(name) && SlotFor(v.dir, name) >= 0
    requires Find(v.dir, name) < 0 && k <= |FsWrite(v, name, data).log|
    requires Inv(v) && Synced(v)
    ensures var disk, i := Replay(v.disk, FsWrite(v, name, data).log[..k]), SlotFor(v.dir, name);
      var q, c := Flushed(k, |ChainFor(v, name, |data|)|), LeftChain(v, name, data);
      var lost := if Settled(v, i, q) then 0 else |Below(c, 256 * q)|;
      && ParseSuperblock(disk[FS_START_LBA]) == v.sb
      && Inv(MountImage(disk)) && Synced(MountImage(disk))
      && Capacity(MountImage(disk)) + lost == Capacity(v)
      && (lost == 0 <==> Settled(v, i, q) || |c| == 0 || 256 * q <= c[0])
  {
    hide Inv, FsWrite, ChainFor, Synced, Replay, MountImage, ParseSuperblock, LeftChain, Capacity, Below, Settled;
    hide Rejoins, Lost;
    var q, c := Flushed(k, |ChainFor(v, name, |data|)|), LeftChain(v, name, data);
    WriteStopIff(v, name, data, k);
    UnusedLoses(v, SlotFor(v.dir, name), c, q);
    BelowEmpty(c, 256 * q);
  }

  lemma BelowEmpty(c: seq<u16>, t: nat)
    ensures |Below(c, t)| == 0 <==> |c| == 0 || t <= c[0]
  {
  }

  /** So later runs always act as the bounded map does. */
  lemma CreateRecovers(v: Volume, name: CString, data: seq<byte>, k: nat)
    requires v.Shaped() && |data| < 0x1_0000_0000 && ValidName(name) && SlotFor(v.dir, name) >= 0
    requires Find(v.dir, name) < 0 && k <= |FsWrite(v, name, data).log|
    requires Good(v)
    ensures var disk := Replay(v.disk, FsWrite(v, name, data).log[..k]);
      && ParseSuperblock(disk[FS_START_LBA]) == v.sb
      && Mountable(MountImage(disk)) && RefinesMap(MountImage(disk))
  {
    hide Good, FsWrite, ChainFor, Replay, MountImage, ParseSuperblock, LeftChain, Capacity, Below, Settled;
    hide Rejoins, Whole, Lost, Mountable, RefinesMap;
    WriteRecovers(v, name, data, k);
    UnusedLoses(v, SlotFor(v.dir, name), LeftChain(v, name, data),
                Flushed(k, |ChainFor(v, name, |data|)|));
  }

  lemma UnusedLoses(v: Volume, i: nat, c: seq<u16>, q: nat)
    requires i < |v.dir| && !Used(v.dir[i])
    ensures Rejoins(v, i, c, 256 * q) && Whole(v, i, c, 256 * q)
    ensures Lost(v, i, c, q) == if Settled(v, i, q) then 0 else |Below(c, 256 * q)|
  {
    assert From([], 256 * q) == [];
  }
}
