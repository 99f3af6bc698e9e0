/** Power loss in the middle of an operation: what a remount finds when only
    some of the operation's sector writes reached the platter. */
module RpfsCrash {
  import opened Bytes
  import opened Drives
  import opened RpfsLayout
  import opened RpfsFat
  import opened RpfsVolume
  import opened RpfsOps
  import opened RpfsFiles

  // --- platters between two states ------------------------------------------

  /** A write that stores new data in one of the blocks `taken`, or one sector
      of the new FAT or of the new directory. */
  ghost predicate Allowed(sb: Superblock, fat: seq<u16>, dir: seq<Dirent>, taken: seq<u16>, w: SectorWrite)
    requires |fat| == sb.fatSectors * 256 && |dir| == FS_DIR_ENTRIES && sb.dirSectors == 4
    requires sb.dirStart == sb.fatStart + sb.fatSectors && sb.dataStart == sb.dirStart + sb.dirSectors
  {
    if w.lba < sb.fatStart then false
    else if w.lba < sb.dirStart then w.data == FatSector(fat, w.lba - sb.fatStart)
    else if w.lba < sb.dataStart then w.data == DirSector(dir, w.lba - sb.dirStart)
    else exists k :: 0 <= k < |taken| && w.lba == BlockLba(sb, taken[k])
  }

  /** Each metadata sector of `disk` is the old or the new one, and blocks
      outside `taken` hold their old bytes. */
  ghost predicate Between(v: Volume, fat: seq<u16>, dir: seq<Dirent>, taken: seq<u16>, disk: seq<Sector>)
    requires v.Shaped() && |fat| == |v.fat| && |dir| == FS_DIR_ENTRIES
  {
    && |disk| == |v.disk|
    && disk[FS_START_LBA] == SuperblockSector(v.sb)
    && (forall s :: 0 <= s < v.sb.fatSectors ==>
          disk[v.sb.fatStart + s] == FatSector(v.fat, s) || disk[v.sb.fatStart + s] == FatSector(fat, s))
    && (forall s :: 0 <= s < 4 ==>
          disk[v.sb.dirStart + s] == DirSector(v.dir, s) || disk[v.sb.dirStart + s] == DirSector(dir, s))
    && (forall b: u16 :: 1 <= b <= v.sb.dataBlocks && b !in taken ==>
          disk[BlockLba(v.sb, b)] == v.disk[BlockLba(v.sb, b)])
  }

  lemma {:induction false} BetweenReplay(v: Volume,
                                         fat: seq<u16>, dir: seq<Dirent>, taken: seq<u16>, log: seq<SectorWrite>)
    requires v.Shaped() && Synced(v) && |fat| == |v.fat| && |dir| == FS_DIR_ENTRIES
    requires forall k :: 0 <= k < |log| ==> Allowed(v.sb, fat, dir, taken, log[k])
    ensures Between(v, fat, dir, taken, Replay(v.disk, log))
    decreases |log|
  {
    if |log| > 0 {
      var before := log[..|log| - 1];
      BetweenReplay(v, fat, dir, taken, before);
      if log[|log| - 1].lba < |v.disk| {
        BetweenStep(v, fat, dir, taken, Replay(v.disk, before), log[|log| - 1]);
      }
    }
  }

  lemma BetweenStep(v: Volume, fat: seq<u16>, dir: seq<Dirent>, taken: seq<u16>, disk: seq<Sector>, w: SectorWrite)
    requires v.Shaped() && |fat| == |v.fat| && |dir| == FS_DIR_ENTRIES
    requires Between(v, fat, dir, taken, disk) && Allowed(v.sb, fat, dir, taken, w) && w.lba < |disk|
    ensures Between(v, fat, dir, taken, disk[w.lba := w.data])
  {
    hide FatSector, DirSector, SuperblockSector;
  }

  lemma FatBetween(disk: seq<Sector>, start: nat, n: nat, f: seq<u16>, g: seq<u16>)
    requires start + n <= |disk| && |f| == |g| == n * 256
    requires forall s :: 0 <= s < n ==> disk[start + s] == FatSector(f, s) || disk[start + s] == FatSector(g, s)
    ensures forall x :: 0 <= x < |f| ==> FatOf(disk, start, n)[x] == f[x] || FatOf(disk, start, n)[x] == g[x]
  {
    hide FatOf, FatSector;
    forall x | 0 <= x < |f| ensures FatOf(disk, start, n)[x] == f[x] || FatOf(disk, start, n)[x] == g[x] {
      FatAt(disk, start, n, if disk[start + x / 256] == FatSector(f, x / 256) then f else g, x);
    }
  }

  lemma DirBetween(disk: seq<Sector>, start: nat, f: seq<Dirent>, g: seq<Dirent>)
    requires start + 4 <= |disk| && |f| == |g| == FS_DIR_ENTRIES
    requires forall s :: 0 <= s < 4 ==> disk[start + s] == DirSector(f, s) || disk[start + s] == DirSector(g, s)
    ensures forall x :: 0 <= x < |f| ==> DirOf(disk, start)[x] == f[x] || DirOf(disk, start)[x] == g[x]
  {
    hide DirOf, DirSector;
    forall x | 0 <= x < |f| ensures DirOf(disk, start)[x] == f[x] || DirOf(disk, start)[x] == g[x] {
      DirAt(disk, start, if disk[start + x / 16] == DirSector(f, x / 16) then f else g, x);
    }
  }

  /** Volume `m` mixes the metadata of `v` with the new FAT and directory,
      entry by entry, and keeps the blocks outside `taken`. */
  ghost predicate Mixed(v: Volume, fat: seq<u16>, dir: seq<Dirent>, taken: seq<u16>, m: Volume)
    requires v.Shaped() && |fat| == |v.fat| && |dir| == FS_DIR_ENTRIES
  {
    && m.Shaped() && m.sb == v.sb && |m.disk| == |v.disk|
    && (forall x :: 0 <= x < |v.fat| ==> m.fat[x] == v.fat[x] || m.fat[x] == fat[x])
    && (forall j :: 0 <= j < FS_DIR_ENTRIES ==> m.dir[j] == v.dir[j] || m.dir[j] == dir[j])
    && (forall b: u16 :: 1 <= b <= v.sb.dataBlocks && b !in taken ==>
          m.disk[BlockLba(v.sb, b)] == v.disk[BlockLba(v.sb, b)])
  }

  lemma MountBetween(v: Volume, fat: seq<u16>, dir: seq<Dirent>, taken: seq<u16>, disk: seq<Sector>)
    requires v.Shaped() && |fat| == |v.fat| && |dir| == FS_DIR_ENTRIES
    requires Between(v, fat, dir, taken, disk)
    ensures ParseSuperblock(disk[FS_START_LBA]) == v.sb
    ensures Mixed(v, fat, dir, taken, MountImage(disk))
  {
    SuperblockRoundTrip(v.sb);
    FatBetween(disk, v.sb.fatStart, v.sb.fatSectors, v.fat, fat);
    DirBetween(disk, v.sb.dirStart, v.dir, dir);
  }

  /** Remounting after any selection of allowed writes finds old and new metadata mixed. */
  lemma RemountMixes(v: Volume, fat: seq<u16>, dir: seq<Dirent>, taken: seq<u16>, log: seq<SectorWrite>)
    requires v.Shaped() && Synced(v) && |fat| == |v.fat| && |dir| == FS_DIR_ENTRIES
    requires forall k :: 0 <= k < |log| ==> Allowed(v.sb, fat, dir, taken, log[k])
    ensures ParseSuperblock(Replay(v.disk, log)[FS_START_LBA]) == v.sb
    ensures Mixed(v, fat, dir, taken, MountImage(Replay(v.disk, log)))
  {
    BetweenReplay(v, fat, dir, taken, log);
    MountBetween(v, fat, dir, taken, Replay(v.disk, log));
  }

  /** A mixture of two consistent volumes can be read: every link and every
      first block is one of theirs. */
  lemma MixedIsReadable(v: Volume, w: Volume, taken: seq<u16>, m: Volume)
    requires Inv(v) && Inv(w) && w.sb == v.sb && Mixed(v, w.fat, w.dir, taken, m)
    ensures Readable(m)
  {
    InvIsReadable(v);
    InvIsReadable(w);
    hide Inv;
  }

  // --- isolation of the other files -----------------------------------------

  /** A file whose entry, links and sectors are as before reads back as before. */
  lemma SameRead(v: Volume, m: Volume, j: nat, size: nat)
    requires Inv(v) && m.Shaped() && m.sb == v.sb && |m.disk| == |v.disk| && |m.fat| == |v.fat|
    requires j < FS_DIR_ENTRIES && Used(v.dir[j])
    requires forall x :: x in v.ChainOf(j) ==>
      x < |v.fat| && m.fat[x] == v.fat[x] &&
      (0 <= BlockLba(v.sb, x) < |v.disk| ==> m.disk[BlockLba(v.sb, x)] == v.disk[BlockLba(v.sb, x)])
    ensures Walk(m, v.dir[j].first, size) == Walk(v, v.dir[j].first, size)
  {
    var c := v.ChainOf(j);
    assert SlotOk(v, j);
    assert forall k :: 0 <= k < |c| ==> c[k] in c;
    hide NamesOk, ChainsDisjoint, Owned, Walk, Gather;
    WalkIsGather(v, c, size);
    WalkIsGather(m, c, size);
    GatherFrame(v.disk, m.disk, v.sb, c, size);
  }

  /** Where lookup finds a name of neither the old nor the new entry of slot `i`. */
  lemma FindBetween(v: Volume, m: Volume, i: nat, e: Dirent, n: CString)
    requires NamesOk(v) && i < |v.dir| == |m.dir|
    requires forall j :: 0 <= j < |v.dir| && j != i ==> m.dir[j] == v.dir[j]
    requires m.dir[i] == v.dir[i] || m.dir[i] == e
    requires Used(v.dir[i]) ==> Text(v.dir[i].name) != n
    requires Used(e) ==> Text(e.name) != n
    ensures Find(m.dir, n) == Find(v.dir, n) != i
  {
  }

  /** Isolation: whatever mixture of old and new metadata a remount finds, a
      file of a name other than the slot's old and new ones reads back as before. */
  lemma Isolation(v: Volume, w: Volume, i: nat, e: Dirent, c: seq<u16>, taken: seq<u16>,
                  m: Volume, n: CString, maxlen: nat)
    requires Inv(v) && i < FS_DIR_ENTRIES && ReplacesSlot(v, w, i, e, c)
    requires forall b :: b in taken ==> b < |v.fat| && (v.fat[b] == FAT_FREE || b in v.ChainOf(i))
    requires Mixed(v, w.fat, w.dir, taken, m)
    requires Used(v.dir[i]) ==> Text(v.dir[i].name) != n
    requires Used(e) ==> Text(e.name) != n
    ensures FsRead(m, n, maxlen) == FsRead(v, n, maxlen)
  {
    FindBetween(v, m, i, e, n);
    var j := Find(v.dir, n);
    if j >= 0 {
      forall x | x in v.ChainOf(j)
        ensures 1 <= x <= v.sb.dataBlocks && m.fat[x] == v.fat[x] &&
          m.disk[BlockLba(v.sb, x)] == v.disk[BlockLba(v.sb, x)]
      {
        OthersKeepBlocks(v, w, i, e, c, j, x);
        ChainBlock(v, j, x);
      }
      SameRead(v, m, j, Min(v.dir[j].size, maxlen));
    }
  }

  lemma ChainBlock(v: Volume, j: nat, x: u16)
    requires Inv(v) && j < FS_DIR_ENTRIES && x in v.ChainOf(j)
    ensures 1 <= x <= v.sb.dataBlocks && v.fat[x] != FAT_FREE
  {
    assert SlotOk(v, j);
    var k :| 0 <= k < |v.ChainOf(j)| && v.ChainOf(j)[k] == x;
    assert v.fat[x] == Next(v.ChainOf(j), k);
  }

  lemma FlushAllowed(v: Volume, fat: seq<u16>, dir: seq<Dirent>, taken: seq<u16>, w: SectorWrite)
    requires v.Shaped() && |fat| == |v.fat| && |dir| == FS_DIR_ENTRIES
    requires w in FatLog(v.sb, fat) + DirLog(v.sb, dir)
    ensures Allowed(v.sb, fat, dir, taken, w)
  {
    if w in FatLog(v.sb, fat) {
      var k :| 0 <= k < |FatLog(v.sb, fat)| && FatLog(v.sb, fat)[k] == w;
    } else {
      var k :| 0 <= k < |DirLog(v.sb, dir)| && DirLog(v.sb, dir)[k] == w;
    }
  }

  lemma DataAllowed(v: Volume, fat: seq<u16>, dir: seq<Dirent>, c: seq<u16>, data: seq<byte>, w: SectorWrite)
    requires v.Shaped() && |fat| == |v.fat| && |dir| == FS_DIR_ENTRIES
    requires |c| <= BlocksFor(|data|) && forall k :: 0 <= k < |c| ==> 1 <= c[k]
    requires w in DataLog(v.sb, c, data)
    ensures Allowed(v.sb, fat, dir, c, w)
  {
    var k :| 0 <= k < |c| && DataLog(v.sb, c, data)[k] == w;
    assert w.lba == BlockLba(v.sb, c[k]);
  }

  lemma WriteAllowed(v: Volume, name: CString, data: seq<byte>, w: SectorWrite)
    requires v.Shaped() && |data| < 0x1_0000_0000 && ValidName(name) && SlotFor(v.dir, name) >= 0
    requires w in FsWrite(v, name, data).log
    ensures var after := FsWrite(v, name, data).vol;
      Allowed(v.sb, after.fat, after.dir, ChainFor(v, name, |data|), w)
  {
    var after, c := FsWrite(v, name, data).vol, ChainFor(v, name, |data|);
    if w in DataLog(v.sb, c, data) {
      DataAllowed(v, after.fat, after.dir, c, data, w);
    } else {
      FlushAllowed(v, after.fat, after.dir, c, w);
    }
  }

  /** What a remount finds after any selection of the writes of fs_write. */
  lemma WriteMixes(v: Volume, name: CString, data: seq<byte>, log: seq<SectorWrite>)
    requires Inv(v) && Synced(v) && |data| < 0x1_0000_0000 && ValidName(name) && SlotFor(v.dir, name) >= 0
    requires forall k :: 0 <= k < |log| ==> log[k] in FsWrite(v, name, data).log
    ensures var after, disk := FsWrite(v, name, data).vol, Replay(v.disk, log);
      && ParseSuperblock(disk[FS_START_LBA]) == v.sb
      && Mixed(v, after.fat, after.dir, ChainFor(v, name, |data|), MountImage(disk))
  {
    var after, c := FsWrite(v, name, data).vol, ChainFor(v, name, |data|);
    forall k | 0 <= k < |log| ensures Allowed(v.sb, after.fat, after.dir, c, log[k]) {
      WriteAllowed(v, name, data, log[k]);
    }
    RemountMixes(v, after.fat, after.dir, c, log);
  }

  /** The blocks fs_write takes belong to no other file. */
  lemma TakenBlocks(v: Volume, name: CString, len: nat)
    requires Inv(v) && SlotFor(v.dir, name) >= 0
    ensures forall b :: b in ChainFor(v, name, len) ==>
      b < |v.fat| && (v.fat[b] == FAT_FREE || b in v.ChainOf(SlotFor(v.dir, name)))
  {
    LowestFreeShape(DroppedFat(v, name), 1, v.sb.dataBlocks, BlocksFor(len));
  }

  lemma WriteIsolates(v: Volume, name: CString, data: seq<byte>, m: Volume, n: CString, maxlen: nat)
    requires Inv(v) && |data| < 0x1_0000_0000 && ValidName(name) && SlotFor(v.dir, name) >= 0 && n != name
    requires var after := FsWrite(v, name, data).vol;
      Mixed(v, after.fat, after.dir, ChainFor(v, name, |data|), m)
    ensures FsRead(m, n, maxlen) == FsRead(v, n, maxlen)
  {
    var r, i, c := FsWrite(v, name, data), SlotFor(v.dir, name), ChainFor(v, name, |data|);
    TakenBlocks(v, name, |data|);
    if r.ok {
      WriteReplaces(v, name, data);
      Isolation(v, r.vol, i, Filled(EntryFor(v.dir, name), c, |data|), c, c, m, n, maxlen);
    } else {
      FullWriteReplaces(v, name, data);
      Isolation(v, r.vol, i, Filled(EntryFor(v.dir, name), [], 0), [], c, m, n, maxlen);
    }
  }

  lemma WriteMixesReadable(v: Volume, name: CString, data: seq<byte>, m: Volume)
    requires Inv(v) && |data| < 0x1_0000_0000 && ValidName(name) && SlotFor(v.dir, name) >= 0
    requires var after := FsWrite(v, name, data).vol;
      Mixed(v, after.fat, after.dir, ChainFor(v, name, |data|), m)
    ensures Readable(m)
  {
    WriteKeepsInv(v, name, data);
    MixedIsReadable(v, FsWrite(v, name, data).vol, ChainFor(v, name, |data|), m);
  }

  lemma DeleteMixesReadable(v: Volume, name: CString, m: Volume)
    requires Inv(v) && Find(v.dir, name) >= 0
    requires Mixed(v, FsDelete(v, name).vol.fat, FsDelete(v, name).vol.dir, [], m)
    ensures Readable(m)
  {
    DeleteKeepsInv(v, name);
    MixedIsReadable(v, FsDelete(v, name).vol, [], m);
  }

  lemma NothingFromNothing(log: seq<SectorWrite>, all: seq<SectorWrite>)
    requires forall k :: 0 <= k < |log| ==> log[k] in all
    ensures |log| == 0 || |all| > 0
  {
    if |log| > 0 {
      assert log[0] in all;
    }
  }

  /** fs_write interrupted: whichever of its sector writes reached the platter,
      a remount reads every other file back exactly. */
  lemma WriteCrashIsolation(v: Volume, name: CString, data: seq<byte>, log: seq<SectorWrite>, n: CString, maxlen: nat)
    requires Inv(v) && Synced(v) && |data| < 0x1_0000_0000 && n != name
    requires forall k :: 0 <= k < |log| ==> log[k] in FsWrite(v, name, data).log
    ensures var disk := Replay(v.disk, log);
      && ParseSuperblock(disk[FS_START_LBA]) == v.sb && Readable(MountImage(disk))
      && FsRead(MountImage(disk), n, maxlen) == FsRead(v, n, maxlen)
  {
    if ValidName(name) && SlotFor(v.dir, name) >= 0 {
      WriteMixes(v, name, data, log);
      WriteIsolates(v, name, data, MountImage(Replay(v.disk, log)), n, maxlen);
      WriteMixesReadable(v, name, data, MountImage(Replay(v.disk, log)));
    } else {
      NothingFromNothing(log, FsWrite(v, name, data).log);
      RemountIdentity(v);
      InvIsReadable(v);
    }
  }

  /** What a remount finds after any selection of the writes of fs_delete. */
  lemma DeleteMixes(v: Volume, name: CString, log: seq<SectorWrite>)
    requires Inv(v) && Synced(v) && Find(v.dir, name) >= 0
    requires forall k :: 0 <= k < |log| ==> log[k] in FsDelete(v, name).log
    ensures var after, disk := FsDelete(v, name).vol, Replay(v.disk, log);
      && ParseSuperblock(disk[FS_START_LBA]) == v.sb
      && Mixed(v, after.fat, after.dir, [], MountImage(disk))
  {
    var after := FsDelete(v, name).vol;
    forall k | 0 <= k < |log| ensures Allowed(v.sb, after.fat, after.dir, [], log[k]) {
      FlushAllowed(v, after.fat, after.dir, [], log[k]);
    }
    RemountMixes(v, after.fat, after.dir, [], log);
  }

  /** fs_delete interrupted: every other file reads back exactly. */
  lemma DeleteCrashIsolation(v: Volume, name: CString, log: seq<SectorWrite>, n: CString, maxlen: nat)
    requires Inv(v) && Synced(v) && n != name
    requires forall k :: 0 <= k < |log| ==> log[k] in FsDelete(v, name).log
    ensures var disk := Replay(v.disk, log);
      && ParseSuperblock(disk[FS_START_LBA]) == v.sb && Readable(MountImage(disk))
      && FsRead(MountImage(disk), n, maxlen) == FsRead(v, n, maxlen)
  {
    if Find(v.dir, name) >= 0 {
      DeleteMixes(v, name, log);
      DeleteReplaces(v, name);
      Isolation(v, FsDelete(v, name).vol, Find(v.dir, name), BLANK, [], [], MountImage(Replay(v.disk, log)), n, maxlen);
      DeleteMixesReadable(v, name, MountImage(Replay(v.disk, log)));
    } else {
      NothingFromNothing(log, FsDelete(v, name).log);
      RemountIdentity(v);
      InvIsReadable(v);
    }
  }

  // --- the file being changed -----------------------------------------------

  lemma {:induction false} WalkPrefix(v: Volume, m: Volume, c: seq<u16>, size: nat)
    requires v.Shaped() && m.Shaped() && m.sb == v.sb && |m.fat| == |v.fat| && |m.disk| == |v.disk|
    requires IsChain(v.fat, v.sb.dataBlocks, Head(c), c)
    requires forall k :: 0 <= k < |c| ==> m.fat[c[k]] == v.fat[c[k]] || m.fat[c[k]] == FAT_FREE
    requires forall k :: 0 <= k < |c| ==> m.disk[BlockLba(v.sb, c[k])] == v.disk[BlockLba(v.sb, c[k])]
    ensures Walk(m, Head(c), size) <= Gather(v.disk, v.sb, c, size)
    decreases |c|
  {
    if |c| > 0 && size > 0 {
      ChainTail(v.fat, v.sb.dataBlocks, c);
      var n := Min(size, 512);
      if m.fat[c[0]] == v.fat[c[0]] && |c| > 1 {
        assert forall k :: 0 <= k < |c| - 1 ==> c[1..][k] == c[k + 1];
        WalkPrefix(v, m, c[1..], size - n);
      } else {
        assert Walk(m, m.fat[c[0]], size - n) == [];
      }
    }
  }

  /** fs_delete interrupted: the file is gone, or still listed with its size and
      readable as a prefix of its old bytes. */
  lemma DeleteCrashPrefix(v: Volume, name: CString, log: seq<SectorWrite>, maxlen: nat)
    requires Inv(v) && Synced(v) && Find(v.dir, name) >= 0
    requires forall k :: 0 <= k < |log| ==> log[k] in FsDelete(v, name).log
    ensures var disk := Replay(v.disk, log);
      && ParseSuperblock(disk[FS_START_LBA]) == v.sb && Readable(MountImage(disk))
      && var r := FsRead(MountImage(disk), name, maxlen);
         r == NotFound || (r.size == v.dir[Find(v.dir, name)].size && r.bytes <= v.ContentOf(Find(v.dir, name)))
  {
    DeleteMixes(v, name, log);
    DeletedReadsPrefix(v, name, MountImage(Replay(v.disk, log)), maxlen);
    DeleteMixesReadable(v, name, MountImage(Replay(v.disk, log)));
  }

  lemma DeletedLinks(v: Volume, name: CString, m: Volume)
    requires Inv(v) && Find(v.dir, name) >= 0
    requires Mixed(v, FsDelete(v, name).vol.fat, FsDelete(v, name).vol.dir, [], m)
    ensures forall x :: x in v.ChainOf(Find(v.dir, name)) ==>
      && 1 <= x <= v.sb.dataBlocks
      && (m.fat[x] == v.fat[x] || m.fat[x] == FAT_FREE)
      && m.disk[BlockLba(v.sb, x)] == v.disk[BlockLba(v.sb, x)]
  {
    forall x | x in v.ChainOf(Find(v.dir, name))
      ensures 1 <= x <= v.sb.dataBlocks && (m.fat[x] == v.fat[x] || m.fat[x] == FAT_FREE)
    {
      ChainBlock(v, Find(v.dir, name), x);
    }
  }

  /** The entry is still there, in its old place, or gone. */
  lemma DeletedFound(v: Volume, name: CString, m: Volume)
    requires Inv(v) && Find(v.dir, name) >= 0
    requires Mixed(v, FsDelete(v, name).vol.fat, FsDelete(v, name).vol.dir, [], m)
    ensures m.Shaped() && m.sb == v.sb && |m.fat| == |v.fat| && |m.disk| == |v.disk| && Used(v.dir[Find(v.dir, name)])
    ensures var i, j := Find(v.dir, name), Find(m.dir, name); j >= 0 ==> j == i && m.dir[j] == v.dir[j]
  {
    hide Chain, Text;
  }

  lemma DeletedReadsPrefix(v: Volume, name: CString, m: Volume, maxlen: nat)
    requires Inv(v) && Find(v.dir, name) >= 0
    requires Mixed(v, FsDelete(v, name).vol.fat, FsDelete(v, name).vol.dir, [], m)
    ensures var r, i := FsRead(m, name, maxlen), Find(v.dir, name);
      r == NotFound || (r.size == v.dir[i].size && r.bytes <= v.ContentOf(i))
  {
    hide Inv, Chain, FsDelete, Walk, Gather, Find, Mixed, NamesOk;
    InvShaped(v);
    DeletedFound(v, name, m);
    var i := Find(v.dir, name);
    var c, size := v.ChainOf(i), v.dir[i].size;
    if Find(m.dir, name) >= 0 {
      DeletedLinks(v, name, m);
      assert forall k :: 0 <= k < |c| ==> c[k] in c;
      assert SlotOk(v, i);
      WalkPrefix(v, m, c, Min(size, maxlen));
      GatherPrefix(v.disk, v.sb, c, size, Min(size, maxlen));
    }
  }

  /** fs_write interrupted before its first FAT sector: the metadata is still
      the old one, so the remounted volume satisfies the whole invariant. */
  lemma DataPhaseCrash(v: Volume, name: CString, data: seq<byte>, k: nat)
    requires Inv(v) && Synced(v) && |data| < 0x1_0000_0000 && ValidName(name) && SlotFor(v.dir, name) >= 0
    requires k <= |ChainFor(v, name, |data|)| <= |FsWrite(v, name, data).log|
    ensures var disk := Replay(v.disk, FsWrite(v, name, data).log[..k]);
      && ParseSuperblock(disk[FS_START_LBA]) == v.sb
      && MountImage(disk) == v.(disk := disk)
      && Inv(MountImage(disk))
  {
    var r, c := FsWrite(v, name, data), ChainFor(v, name, |data|);
    var log := r.log[..k];
    forall m | 0 <= m < k ensures Allowed(v.sb, v.fat, v.dir, c, log[m]) {
      assert log[m] == DataLog(v.sb, c, data)[m];
      DataAllowed(v, v.fat, v.dir, c, data, log[m]);
    }
    BetweenReplay(v, v.fat, v.dir, c, log);
    var disk := Replay(v.disk, log);
    RemountIdentity(v.(disk := disk));
    InvIgnoresDisk(v, disk);
  }

  lemma InvIgnoresDisk(v: Volume, disk: seq<Sector>)
    requires Inv(v) && |disk| == |v.disk|
    ensures Inv(v.(disk := disk))
  {
    var w := v.(disk := disk);
    forall i | 0 <= i < FS_DIR_ENTRIES ensures w.ChainOf(i) == v.ChainOf(i) && SlotOk(w, i) {
      assert SlotOk(v, i);
    }
  }

  // --- atomic operations ----------------------------------------------------

  lemma {:induction false} SameFilesUpTo(v: Volume, w: Volume, n: nat)
    requires v.dir == w.dir && n <= |v.dir|
    requires forall j :: 0 <= j < |v.dir| ==> v.ContentOf(j) == w.ContentOf(j)
    ensures FilesUpTo(v, n) == FilesUpTo(w, n)
    decreases n
  {
    if n > 0 {
      SameFilesUpTo(v, w, n - 1);
    }
  }

  lemma SameDir(a: seq<Dirent>, b: seq<Dirent>, i: nat)
    requires |a| == |b| && i < |a| && a[i] == b[i] && forall j :: 0 <= j < |a| && j != i ==> a[j] == b[j]
    ensures a == b
  {
  }

  /** What a remount finds after any selection of the writes of fs_rename. */
  lemma RenameMixes(v: Volume, oldName: CString, newName: CString, log: seq<SectorWrite>)
    requires Inv(v) && Synced(v) && FsRename(v, oldName, newName).ok
    requires forall k :: 0 <= k < |log| ==> log[k] in FsRename(v, oldName, newName).log
    ensures var after, disk := FsRename(v, oldName, newName).vol, Replay(v.disk, log);
      && ParseSuperblock(disk[FS_START_LBA]) == v.sb
      && Mixed(v, v.fat, after.dir, [], MountImage(disk))
  {
    var after := FsRename(v, oldName, newName).vol;
    forall k | 0 <= k < |log| ensures Allowed(v.sb, v.fat, after.dir, [], log[k]) {
      FlushAllowed(v, v.fat, after.dir, [], log[k]);
    }
    RemountMixes(v, v.fat, after.dir, [], log);
  }

  /** With the old FAT and untouched data every slot keeps its contents. */
  lemma MixedContents(v: Volume, dir: seq<Dirent>, m: Volume)
    requires Inv(v) && |dir| == FS_DIR_ENTRIES && Mixed(v, v.fat, dir, [], m)
    requires forall j :: 0 <= j < FS_DIR_ENTRIES ==>
      m.dir[j].used == v.dir[j].used && m.dir[j].first == v.dir[j].first && m.dir[j].size == v.dir[j].size
    ensures forall j :: 0 <= j < FS_DIR_ENTRIES ==> m.ContentOf(j) == v.ContentOf(j)
  {
    assert m.fat == v.fat;
    forall j | 0 <= j < FS_DIR_ENTRIES ensures m.ContentOf(j) == v.ContentOf(j) {
      assert SlotOk(v, j);
      var c := v.ChainOf(j);
      forall k | 0 <= k < |c| ensures m.disk[BlockLba(v.sb, c[k])] == v.disk[BlockLba(v.sb, c[k])] {
        assert c[k] in c;
        ChainBlock(v, j, c[k]);
      }
      GatherFrame(v.disk, m.disk, v.sb, c, v.dir[j].size);
    }
  }

  lemma RenamedVolume(v: Volume, oldName: CString, newName: CString, m: Volume)
    requires Inv(v) && FsRename(v, oldName, newName).ok
    requires Mixed(v, v.fat, FsRename(v, oldName, newName).vol.dir, [], m)
    ensures Files(m) == Files(v) || Files(m) == Files(FsRename(v, oldName, newName).vol)
  {
    var w, i := FsRename(v, oldName, newName).vol, Find(v.dir, oldName);
    MixedContents(v, w.dir, m);
    if m.dir[i] == v.dir[i] {
      SameDir(m.dir, v.dir, i);
      SameFilesUpTo(m, v, |v.dir|);
    } else {
      RenamedContents(v, oldName, newName);
      SameDir(m.dir, w.dir, i);
      SameFilesUpTo(m, w, |v.dir|);
    }
  }

  /** The mixture an interrupted fs_rename leaves is the old or the new volume
      over a platter with the same data blocks. */
  lemma RenamedKeepsInv(v: Volume, oldName: CString, newName: CString, m: Volume)
    requires Inv(v) && FsRename(v, oldName, newName).ok
    requires Mixed(v, v.fat, FsRename(v, oldName, newName).vol.dir, [], m)
    ensures Inv(m)
  {
    var w, i := FsRename(v, oldName, newName).vol, Find(v.dir, oldName);
    RenameKeepsInv(v, oldName, newName);
    hide Inv;
    if m.dir[i] == v.dir[i] {
      SameDir(m.dir, v.dir, i);
      assert m == v.(disk := m.disk);
      InvIgnoresDisk(v, m.disk);
    } else {
      SameDir(m.dir, w.dir, i);
      assert m == w.(disk := m.disk);
      InvIgnoresDisk(w, m.disk);
    }
  }

  /** fs_rename is atomic: whichever of its sector writes reached the platter,
      the remounted volume holds all files under the old names or under the new ones. */
  lemma RenameAtomic(v: Volume, oldName: CString, newName: CString, log: seq<SectorWrite>)
    requires Inv(v) && Synced(v) && FsRename(v, oldName, newName).ok
    requires forall k :: 0 <= k < |log| ==> log[k] in FsRename(v, oldName, newName).log
    ensures var disk := Replay(v.disk, log);
      && ParseSuperblock(disk[FS_START_LBA]) == v.sb && Inv(MountImage(disk))
      && (Files(MountImage(disk)) == Files(v) || Files(MountImage(disk)) == Files(FsRename(v, oldName, newName).vol))
  {
    RenameMixes(v, oldName, newName, log);
    RenamedVolume(v, oldName, newName, MountImage(Replay(v.disk, log)));
    RenamedKeepsInv(v, oldName, newName, MountImage(Replay(v.disk, log)));
  }

  lemma DataOrFatAllowed(v: Volume, fat: seq<u16>, c: seq<u16>, data: seq<byte>, rest: seq<SectorWrite>, j: nat)
    requires v.Shaped() && |fat| == |v.fat|
    requires |c| <= BlocksFor(|data|) && forall k :: 0 <= k < |c| ==> 1 <= c[k]
    requires j < |c| + |FatLog(v.sb, fat)|
    ensures Allowed(v.sb, fat, v.dir, c, (DataLog(v.sb, c, data) + FatLog(v.sb, fat) + rest)[j])
  {
    if j < |c| {
      DataAllowed(v, fat, v.dir, c, data, DataLog(v.sb, c, data)[j]);
    } else {
      FlushAllowed(v, fat, v.dir, c, FatLog(v.sb, fat)[j - |c|]);
    }
  }

  /** Before the first directory sector is written a remount finds the old directory. */
  lemma BeforeDirectory(v: Volume, name: CString, data: seq<byte>, k: nat)
    requires Inv(v) && Synced(v) && |data| < 0x1_0000_0000 && ValidName(name) && SlotFor(v.dir, name) >= 0
    requires k <= |FsWrite(v, name, data).log| - 4
    ensures var disk := Replay(v.disk, FsWrite(v, name, data).log[..k]);
      ParseSuperblock(disk[FS_START_LBA]) == v.sb && MountImage(disk).dir == v.dir
  {
    hide ChainsDisjoint, NamesOk, SlotOk, Allowed, FatSector, DirSector, FatOf, DirOf;
    var w, c := FsWrite(v, name, data).vol, ChainFor(v, name, |data|);
    var log := FsWrite(v, name, data).log[..k];
    forall j | 0 <= j < k ensures Allowed(v.sb, w.fat, v.dir, c, log[j]) {
      DataOrFatAllowed(v, w.fat, c, data, DirLog(v.sb, w.dir), j);
    }
    RemountMixes(v, w.fat, v.dir, c, log);
  }

  /** Both flushes write consecutive sectors. */
  lemma FlushShapes(sb: Superblock, fat: seq<u16>, dir: seq<Dirent>, p: nat)
    requires |fat| == sb.fatSectors * 256 && sb.dataBlocks < |fat| && |dir| == FS_DIR_ENTRIES && p <= 4
    ensures Consecutive(FatLog(sb, fat), sb.fatStart) && Consecutive(DirLog(sb, dir)[..p], sb.dirStart)
    ensures |DirLog(sb, dir)[..p]| == p
    ensures forall s :: 0 <= s < |FatLog(sb, fat)| ==> FatLog(sb, fat)[s].data == FatSector(fat, s)
    ensures forall s :: 0 <= s < p ==> DirLog(sb, dir)[..p][s].data == DirSector(dir, s)
  {
  }

  /** Sectors past the last data block's entry are the same in both tables. */
  lemma TailSector(v: Volume, fat: seq<u16>, s: nat)
    requires v.Shaped() && |fat| == |v.fat| && v.sb.dataBlocks / 256 < s < v.sb.fatSectors
    requires forall x :: v.sb.dataBlocks < x < |fat| ==> fat[x] == v.fat[x]
    ensures FatSector(v.fat, s) == FatSector(fat, s)
  {
    SameFatSector(v.fat, fat, s);
  }

  lemma SyncedFat(v: Volume, s: nat)
    requires v.Shaped() && Synced(v) && s < v.sb.fatSectors
    ensures v.disk[v.sb.fatStart + s] == FatSector(v.fat, s)
  {
  }

  lemma FlushedFatSector(v: Volume, disk: seq<Sector>, fat: seq<u16>, dir: seq<Dirent>, p: nat, s: nat)
    requires v.Shaped() && Synced(v) && |disk| == |v.disk| && p <= 4 && s < v.sb.fatSectors
    requires forall l :: 0 <= l < v.sb.dataStart ==> disk[l] == v.disk[l]
    requires |fat| == |v.fat| && |dir| == FS_DIR_ENTRIES
    requires forall x :: v.sb.dataBlocks < x < |fat| ==> fat[x] == v.fat[x]
    ensures Replay(disk, FatLog(v.sb, fat) + DirLog(v.sb, dir)[..p])[v.sb.fatStart + s] == FatSector(fat, s)
  {
    hide FatSector, DirSector, FatLog, DirLog, Replay, Consecutive, Synced;
    var f, part := FatLog(v.sb, fat), DirLog(v.sb, dir)[..p];
    FlushShapes(v.sb, fat, dir, p);
    ReplayTwoRegions(disk, f, v.sb.fatStart, part, v.sb.dirStart);
    if s < |f| {
      assert f[s].data == FatSector(fat, s);
    } else {
      TailSector(v, fat, s);
      SyncedFat(v, s);
    }
  }

  lemma FlushedData(v: Volume, disk: seq<Sector>, fat: seq<u16>, dir: seq<Dirent>, p: nat, l: nat)
    requires v.Shaped() && |disk| == |v.disk| && p <= 4 && v.sb.dataStart <= l < |disk|
    requires |fat| == |v.fat| && |dir| == FS_DIR_ENTRIES
    ensures Replay(disk, FatLog(v.sb, fat) + DirLog(v.sb, dir)[..p])[l] == disk[l]
  {
    hide FatSector, DirSector, FatLog, DirLog, Replay, Consecutive;
    FlushShapes(v.sb, fat, dir, p);
    ReplayTwoRegions(disk, FatLog(v.sb, fat), v.sb.fatStart, DirLog(v.sb, dir)[..p], v.sb.dirStart);
  }

  /** The FAT and part of the directory flushed: the whole FAT is the new one. */
  lemma PartialFlush(v: Volume, disk: seq<Sector>, fat: seq<u16>, dir: seq<Dirent>, p: nat)
    requires v.Shaped() && Synced(v) && |disk| == |v.disk| && p <= 4
    requires forall l :: 0 <= l < v.sb.dataStart ==> disk[l] == v.disk[l]
    requires |fat| == |v.fat| && |dir| == FS_DIR_ENTRIES
    requires forall x :: v.sb.dataBlocks < x < |fat| ==> fat[x] == v.fat[x]
    ensures var after := Replay(disk, FatLog(v.sb, fat) + DirLog(v.sb, dir)[..p]);
      && FatOf(after, v.sb.fatStart, v.sb.fatSectors) == fat
      && forall l :: v.sb.dataStart <= l < |disk| ==> after[l] == disk[l]
  {
    hide FatSector, DirSector, FatOf, FatLog, DirLog, Replay, Synced;
    var f, part := FatLog(v.sb, fat), DirLog(v.sb, dir)[..p];
    var after := Replay(disk, f + part);
    forall s | 0 <= s < v.sb.fatSectors ensures after[v.sb.fatStart + s] == FatSector(fat, s) {
      FlushedFatSector(v, disk, fat, dir, p, s);
    }
    FatReloads(after, v.sb.fatStart, v.sb.fatSectors, fat);
    forall l | v.sb.dataStart <= l < |disk| ensures after[l] == disk[l] {
      FlushedData(v, disk, fat, dir, p, l);
    }
  }

  /** Once the first directory sector is written the FAT and the data are all in place. */
  lemma AfterFat(v: Volume, name: CString, data: seq<byte>, k: nat)
    requires Inv(v) && Synced(v) && |data| < 0x1_0000_0000 && ValidName(name) && SlotFor(v.dir, name) >= 0
    requires |FsWrite(v, name, data).log| - 4 < k <= |FsWrite(v, name, data).log|
    ensures var w, disk := FsWrite(v, name, data).vol, Replay(v.disk, FsWrite(v, name, data).log[..k]);
      && FatOf(disk, v.sb.fatStart, v.sb.fatSectors) == w.fat
      && forall l :: v.sb.dataStart <= l < |disk| ==> disk[l] == w.disk[l]
  {
    WriteLogParts(v, name, data);
    hide Inv, FsWrite, ChainFor, Replay, FatOf;
    var r, c := FsWrite(v, name, data), ChainFor(v, name, |data|);
    var a, f, d := DataLog(v.sb, c, data), FatLog(v.sb, r.vol.fat), DirLog(v.sb, r.vol.dir);
    var p := k - |a| - |f|;
    assert r.log[..k] == a + (f + d[..p]);
    ReplayConcat(v.disk, a, f + d[..p]);
    DataKeepsMetadata(v.disk, v.sb, c, data);
    WriteKeepsTail(v, name, data);
    PartialFlush(v, Replay(v.disk, a), r.vol.fat, r.vol.dir, p);
    WrittenDisk(v, name, data);
  }

  lemma WriteKeepsTail(v: Volume, name: CString, data: seq<byte>)
    requires Inv(v) && |data| < 0x1_0000_0000 && ValidName(name) && SlotFor(v.dir, name) >= 0
    ensures forall x :: v.sb.dataBlocks < x < |v.fat| ==> FsWrite(v, name, data).vol.fat[x] == v.fat[x]
  {
    var r, c, i := FsWrite(v, name, data), ChainFor(v, name, |data|), SlotFor(v.dir, name);
    if r.ok {
      WriteReplaces(v, name, data);
      TailUntouched(v, r.vol, i, Filled(EntryFor(v.dir, name), c, |data|), c);
    } else {
      FullWriteReplaces(v, name, data);
      TailUntouched(v, r.vol, i, Filled(EntryFor(v.dir, name), [], 0), []);
    }
  }

  /** The FAT and the data in place, the directory old or new in its one changed entry. */
  lemma CreatedReads(v: Volume, name: CString, data: seq<byte>, m: Volume, maxlen: nat)
    requires Inv(v) && |data| < 0x1_0000_0000 && Find(v.dir, name) < 0 && FsWrite(v, name, data).ok
    requires SlotFor(v.dir, name) >= 0
    requires var w := FsWrite(v, name, data).vol;
      && Mixed(v, w.fat, w.dir, ChainFor(v, name, |data|), m) && m.fat == w.fat
      && forall l :: v.sb.dataStart <= l < |m.disk| ==> m.disk[l] == w.disk[l]
    ensures FsRead(m, name, maxlen) == NotFound ||
      FsRead(m, name, maxlen) == FsRead(FsWrite(v, name, data).vol, name, maxlen)
  {
    var w, i := FsWrite(v, name, data).vol, SlotFor(v.dir, name);
    if m.dir[i] == v.dir[i] {
      SameDir(m.dir, v.dir, i);
    } else {
      SameDir(m.dir, w.dir, i);
      WriteKeepsInv(v, name, data);
      var j := Find(w.dir, name);
      if j >= 0 {
        forall x | x in w.ChainOf(j) ensures 1 <= x <= v.sb.dataBlocks {
          ChainBlock(w, j, x);
        }
        SameRead(w, m, j, Min(w.dir[j].size, maxlen));
      }
    }
  }

  /** Creating a file is atomic: stop a successful fs_write of a new name after
      any number of its sector writes and remount, and the name is absent or
      reads back exactly as after the complete call. */
  lemma CreateAtomic(v: Volume, name: CString, data: seq<byte>, k: nat, maxlen: nat)
    requires Inv(v) && Synced(v) && |data| < 0x1_0000_0000 && Find(v.dir, name) < 0
    requires FsWrite(v, name, data).ok && k <= |FsWrite(v, name, data).log|
    ensures var r, disk := FsWrite(v, name, data), Replay(v.disk, FsWrite(v, name, data).log[..k]);
      && ParseSuperblock(disk[FS_START_LBA]) == v.sb && Readable(MountImage(disk))
      && (FsRead(MountImage(disk), name, maxlen) == NotFound ||
          FsRead(MountImage(disk), name, maxlen) == FsRead(r.vol, name, maxlen))
  {
    WriteMixes(v, name, data, FsWrite(v, name, data).log[..k]);
    WriteMixesReadable(v, name, data, MountImage(Replay(v.disk, FsWrite(v, name, data).log[..k])));
    if k <= |FsWrite(v, name, data).log| - 4 {
      BeforeDirectory(v, name, data, k);
    } else {
      AfterFat(v, name, data, k);
      CreatedReads(v, name, data, MountImage(Replay(v.disk, FsWrite(v, name, data).log[..k])), maxlen);
    }
  }
}
