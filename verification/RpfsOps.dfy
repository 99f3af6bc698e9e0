/** The RPFS operations on a fault-free drive, as functions of the volume, with
    the sector writes each one performs; and what they preserve. */
module RpfsOps {
  import opened Bytes
  import opened Drives
  import opened RpfsLayout
  import opened RpfsFat
  import opened RpfsVolume

  // --- what is written ------------------------------------------------------

  /** Block `k` of the file data, zero-filled to a sector. */
  ghost function Chunk(data: seq<byte>, k: nat): Sector
    requires k * 512 <= |data|
  {
    var part := data[k * 512..Min((k + 1) * 512, |data|)];
    part + Zeros(512 - |part|)
  }

  /** The data sectors of a file, in chain order. */
  ghost function DataLog(sb: Superblock, c: seq<u16>, data: seq<byte>): (log: seq<SectorWrite>)
    requires |c| <= BlocksFor(|data|)
    requires forall k :: 0 <= k < |c| ==> 0 <= BlockLba(sb, c[k])
    ensures |log| == |c|
  {
    seq(|c|, k requires 0 <= k < |c| => SectorWrite(BlockLba(sb, c[k]), Chunk(data, k)))
  }

  /** The writes of flush_fat_range(0, data_blocks). */
  ghost function FatLog(sb: Superblock, fat: seq<u16>): (log: seq<SectorWrite>)
    requires |fat| == sb.fatSectors * 256 && sb.dataBlocks < |fat|
    ensures |log| == sb.dataBlocks / 256 + 1 <= sb.fatSectors
  {
    seq(sb.dataBlocks / 256 + 1, s requires 0 <= s < sb.dataBlocks / 256 + 1 =>
      SectorWrite(sb.fatStart + s, FatSector(fat, s)))
  }

  /** The writes of flush_dir. */
  ghost function DirLog(sb: Superblock, dir: seq<Dirent>): (log: seq<SectorWrite>)
    requires |dir| == FS_DIR_ENTRIES
    ensures |log| == 4
  {
    seq(4, s requires 0 <= s < 4 => SectorWrite(sb.dirStart + s, DirSector(dir, s)))
  }

  // --- operations -----------------------------------------------------------

  /** The outcome of an operation: the volume after it, the sector writes it
      made, and whether it returned 0. */
  datatype Outcome = Outcome(vol: Volume, log: seq<SectorWrite>, ok: bool)

  predicate ValidName(name: CString) {
    0 < |name| <= FS_MAX_NAME
  }

  /** The slot fs_write uses: the file's own, or else the first unused one. */
  function SlotFor(dir: seq<Dirent>, name: CString): (r: int)
    requires |dir| == FS_DIR_ENTRIES
    ensures r == -1 || 0 <= r < |dir|
  {
    if Find(dir, name) >= 0 then Find(dir, name) else FreeSlotFrom(dir, 0)
  }

  /** That slot's entry before the contents are replaced. */
  function EntryFor(dir: seq<Dirent>, name: CString): (e: Dirent)
    requires ValidName(name)
    ensures Used(e) && Text(e.name) == name
  {
    var i := Find(dir, name);
    TextOfPadded(name, FS_MAX_NAME + 1);
    if i >= 0 then dir[i] else BLANK.(name := Padded(name, FS_MAX_NAME + 1), used := 1)
  }

  /** The FAT once free_chain has dropped the blocks of slot `i`: those that can
      be reached from its first one, which are its chain if that is well formed. */
  ghost function FreedSlot(v: Volume, i: nat): (fat: seq<u16>)
    requires v.Shaped() && i < FS_DIR_ENTRIES
    ensures |fat| == |v.fat|
    ensures SlotOk(v, i) ==> fat == Cleared(v.fat, v.ChainOf(i))
  {
    FreedChain(v.fat, v.sb.dataBlocks, v.dir[i].first, v.ChainOf(i));
    if Used(v.dir[i]) then Freed(v.fat, v.dir[i].first) else v.fat
  }

  /** The FAT once the replaced file's blocks are dropped. */
  ghost function DroppedFat(v: Volume, name: CString): (fat: seq<u16>)
    requires v.Shaped() && SlotFor(v.dir, name) >= 0
    ensures |fat| == |v.fat|
    ensures SlotOk(v, SlotFor(v.dir, name)) ==> fat == Cleared(v.fat, v.ChainOf(SlotFor(v.dir, name)))
  {
    FreedSlot(v, SlotFor(v.dir, name))
  }

  /** The blocks fs_write takes for `len` bytes, all there are if that is too few. */
  ghost function ChainFor(v: Volume, name: CString, len: nat): (c: seq<u16>)
    requires v.Shaped() && SlotFor(v.dir, name) >= 0
    ensures |c| <= BlocksFor(len)
    ensures forall k :: 0 <= k < |c| ==> 1 <= c[k] <= v.sb.dataBlocks
    ensures Ascending(c)
  {
    LowestFreeShape(DroppedFat(v, name), 1, v.sb.dataBlocks, BlocksFor(len));
    LowestFree(DroppedFat(v, name), 1, v.sb.dataBlocks, BlocksFor(len))
  }

  /** The entry with its new first block and size. */
  function Filled(e: Dirent, c: seq<u16>, size: u32): Dirent {
    e.(first := Head(c), size := size)
  }

  ghost function FsWrite(v: Volume, name: CString, data: seq<byte>): Outcome
    requires v.Shaped() && |data| < 0x1_0000_0000
  {
    if !ValidName(name) || SlotFor(v.dir, name) < 0 then Outcome(v, [], false)
    else
      var i, e := SlotFor(v.dir, name), EntryFor(v.dir, name);
      var dropped, c := DroppedFat(v, name), ChainFor(v, name, |data|);
      var fits := |c| == BlocksFor(|data|);
      var fat := if fits then Linked(dropped, c) else dropped;
      var dir := v.dir[i := if fits then Filled(e, c, |data|) else Filled(e, [], 0)];
      var log := DataLog(v.sb, c, data) + FatLog(v.sb, fat) + DirLog(v.sb, dir);
      Outcome(Volume(v.sb, fat, dir, Replay(v.disk, log)), log, fits)
  }

  ghost function FsDelete(v: Volume, name: CString): Outcome
    requires v.Shaped()
  {
    var i := Find(v.dir, name);
    if i < 0 then Outcome(v, [], false)
    else
      var fat, dir := FreedSlot(v, i), v.dir[i := BLANK];
      var log := FatLog(v.sb, fat) + DirLog(v.sb, dir);
      Outcome(Volume(v.sb, fat, dir, Replay(v.disk, log)), log, true)
  }

  ghost function FsRename(v: Volume, oldName: CString, newName: CString): Outcome
    requires v.Shaped()
  {
    var i := Find(v.dir, oldName);
    if !ValidName(newName) || i < 0 || Find(v.dir, newName) >= 0 then Outcome(v, [], false)
    else
      var dir := v.dir[i := v.dir[i].(name := Padded(newName, FS_MAX_NAME + 1))];
      var log := DirLog(v.sb, dir);
      Outcome(v.(dir := dir, disk := Replay(v.disk, log)), log, true)
  }

  /** The volume fs_mount loads from a formatted platter. */
  function MountImage(disk: seq<Sector>): (v: Volume)
    requires FS_START_LBA < |disk| && WellPlaced(ParseSuperblock(disk[FS_START_LBA]), |disk|)
    ensures v.Shaped()
  {
    var sb := ParseSuperblock(disk[FS_START_LBA]);
    Volume(sb, FatOf(disk, sb.fatStart, sb.fatSectors), DirOf(disk, sb.dirStart), disk)
  }

  ghost function EmptyFat(sb: Superblock): (fat: seq<u16>)
    ensures |fat| == sb.fatSectors * 256
  {
    seq(sb.fatSectors * 256, _ => FAT_FREE)
  }

  ghost function EmptyDir(): (dir: seq<Dirent>)
    ensures |dir| == FS_DIR_ENTRIES
  {
    seq(FS_DIR_ENTRIES, _ => BLANK)
  }

  ghost function EmptyFatLog(sb: Superblock): (log: seq<SectorWrite>)
    ensures |log| == sb.fatSectors
  {
    seq(sb.fatSectors, s requires 0 <= s < sb.fatSectors =>
      SectorWrite(sb.fatStart + s, FatSector(EmptyFat(sb), s)))
  }

  /** The sector writes of fs_format: the FAT, the directory, then the superblock. */
  ghost function FormatLog(sb: Superblock): seq<SectorWrite> {
    EmptyFatLog(sb) + DirLog(sb, EmptyDir()) + [SectorWrite(FS_START_LBA, SuperblockSector(sb))]
  }

  /** A freshly formatted volume. */
  ghost function FormatVolume(disk: seq<Sector>): Volume
    requires FS_START_LBA + 16 < |disk| <= MAX_SECTORS
  {
    var sb := Geometry(|disk|);
    Volume(sb, EmptyFat(sb), EmptyDir(), Replay(disk, FormatLog(sb)))
  }

  // --- every operation replaces one slot ------------------------------------

  lemma LinkNothing(fat: seq<u16>)
    ensures Linked(fat, []) == fat
  {
  }

  lemma NameIsFree(v: Volume, name: CString)
    requires v.Shaped() && NamesOk(v)
    ensures forall j :: 0 <= j < FS_DIR_ENTRIES && j != SlotFor(v.dir, name) && Used(v.dir[j]) ==>
      Text(v.dir[j].name) != name
  {
  }

  lemma WriteReplaces(v: Volume, name: CString, data: seq<byte>)
    requires v.Shaped() && NamesOk(v) && |data| < 0x1_0000_0000 && ValidName(name) && SlotFor(v.dir, name) >= 0
    requires SlotOk(v, SlotFor(v.dir, name))
    requires FsWrite(v, name, data).ok
    ensures var c := ChainFor(v, name, |data|);
      ReplacesSlot(v, FsWrite(v, name, data).vol, SlotFor(v.dir, name), Filled(EntryFor(v.dir, name), c, |data|), c)
  {
    var w, i, c := FsWrite(v, name, data).vol, SlotFor(v.dir, name), ChainFor(v, name, |data|);
    var e := Filled(EntryFor(v.dir, name), c, |data|);
    assert w.Shaped() && w.sb == v.sb && w.dir == v.dir[i := e];
    assert w.fat == Linked(DroppedFat(v, name), c);
    LowestFreeShape(DroppedFat(v, name), 1, v.sb.dataBlocks, BlocksFor(|data|));
    NameIsFree(v, name);
  }

  lemma FullWriteReplaces(v: Volume, name: CString, data: seq<byte>)
    requires v.Shaped() && NamesOk(v) && |data| < 0x1_0000_0000 && ValidName(name) && SlotFor(v.dir, name) >= 0
    requires SlotOk(v, SlotFor(v.dir, name))
    requires !FsWrite(v, name, data).ok
    ensures ReplacesSlot(v, FsWrite(v, name, data).vol, SlotFor(v.dir, name), Filled(EntryFor(v.dir, name), [], 0), [])
  {
    NameIsFree(v, name);
    LinkNothing(DroppedFat(v, name));
  }

  lemma DeleteReplaces(v: Volume, name: CString)
    requires Inv(v) && Find(v.dir, name) >= 0
    ensures ReplacesSlot(v, FsDelete(v, name).vol, Find(v.dir, name), BLANK, [])
  {
    assert SlotOk(v, Find(v.dir, name));
    LinkNothing(Cleared(v.fat, v.ChainOf(Find(v.dir, name))));
  }

  /** The invariant holds after every write, whether or not it succeeded, and
      the written slot owns exactly the chain that was chosen for it. */
  lemma WriteKeepsInv(v: Volume, name: CString, data: seq<byte>)
    requires Inv(v) && |data| < 0x1_0000_0000
    ensures Inv(FsWrite(v, name, data).vol)
    ensures Complete(v) ==> Complete(FsWrite(v, name, data).vol)
    ensures Fitting(v) ==> Fitting(FsWrite(v, name, data).vol)
  {
    var r, i := FsWrite(v, name, data), SlotFor(v.dir, name);
    if ValidName(name) && i >= 0 {
      var e, c := EntryFor(v.dir, name), ChainFor(v, name, |data|);
      if r.ok {
        WriteReplaces(v, name, data);
        ReplaceKeepsInv(v, r.vol, i, Filled(e, c, |data|), c);
      } else {
        FullWriteReplaces(v, name, data);
        ReplaceKeepsInv(v, r.vol, i, Filled(e, [], 0), []);
      }
    }
  }

  lemma DeleteKeepsInv(v: Volume, name: CString)
    requires Inv(v)
    ensures Inv(FsDelete(v, name).vol)
    ensures Complete(v) ==> Complete(FsDelete(v, name).vol)
    ensures Fitting(v) ==> Fitting(FsDelete(v, name).vol)
  {
    if Find(v.dir, name) >= 0 {
      DeleteReplaces(v, name);
      ReplaceKeepsInv(v, FsDelete(v, name).vol, Find(v.dir, name), BLANK, []);
    }
  }

  lemma RenameKeepsChains(v: Volume, oldName: CString, newName: CString)
    requires Inv(v)
    ensures var w := FsRename(v, oldName, newName).vol;
            forall i :: 0 <= i < FS_DIR_ENTRIES ==> w.ChainOf(i) == v.ChainOf(i) && SlotOk(w, i)
  {
    var w := FsRename(v, oldName, newName).vol;
    forall j | 0 <= j < FS_DIR_ENTRIES
      ensures w.ChainOf(j) == v.ChainOf(j) && SlotOk(w, j)
    {
      assert SlotOk(v, j);
    }
  }

  lemma RenameKeepsInv(v: Volume, oldName: CString, newName: CString)
    requires Inv(v)
    ensures Inv(FsRename(v, oldName, newName).vol)
    ensures Complete(v) ==> Complete(FsRename(v, oldName, newName).vol)
    ensures Fitting(v) ==> Fitting(FsRename(v, oldName, newName).vol)
  {
    hide Chain, Replay, Padded, Text, IsChain;
    var w := FsRename(v, oldName, newName).vol;
    RenameKeepsChains(v, oldName, newName);
    if FsRename(v, oldName, newName).ok {
      TextOfPadded(newName, FS_MAX_NAME + 1);
    }
  }

  // --- disk and caches agree ------------------------------------------------

  /** The platter holds the superblock, the FAT and the directory that are cached. */
  ghost predicate Synced(v: Volume)
    requires v.Shaped()
  {
    && v.disk[FS_START_LBA] == SuperblockSector(v.sb)
    && (forall s :: 0 <= s < v.sb.fatSectors ==> v.disk[v.sb.fatStart + s] == FatSector(v.fat, s))
    && (forall s :: 0 <= s < 4 ==> v.disk[v.sb.dirStart + s] == DirSector(v.dir, s))
  }

  /** An entry whose sector is on the platter is read back. */
  lemma FatAt(disk: seq<Sector>, start: nat, n: nat, fat: seq<u16>, x: nat)
    requires start + n <= |disk| && |fat| == n * 256 && x < |fat| && disk[start + x / 256] == FatSector(fat, x / 256)
    ensures FatOf(disk, start, n)[x] == fat[x]
  {
    FatEntryRoundTrip(fat, x);
  }

  lemma DirAt(disk: seq<Sector>, start: nat, dir: seq<Dirent>, x: nat)
    requires start + 4 <= |disk| && |dir| == FS_DIR_ENTRIES && x < |dir|
    requires disk[start + x / 16] == DirSector(dir, x / 16)
    ensures DirOf(disk, start)[x] == dir[x]
  {
    DirEntryRoundTrip(dir, x);
  }

  lemma FatReloads(disk: seq<Sector>, start: nat, n: nat, fat: seq<u16>)
    requires start + n <= |disk| && |fat| == n * 256
    requires forall s :: 0 <= s < n ==> disk[start + s] == FatSector(fat, s)
    ensures FatOf(disk, start, n) == fat
  {
    hide FatOf, FatSector;
    forall x | 0 <= x < |fat| ensures FatOf(disk, start, n)[x] == fat[x] {
      assert disk[start + x / 256] == FatSector(fat, x / 256);
      FatAt(disk, start, n, fat, x);
    }
  }

  lemma DirReloads(disk: seq<Sector>, start: nat, dir: seq<Dirent>)
    requires start + 4 <= |disk| && |dir| == FS_DIR_ENTRIES
    requires forall s :: 0 <= s < 4 ==> disk[start + s] == DirSector(dir, s)
    ensures DirOf(disk, start) == dir
  {
    hide DirOf, DirSector;
    forall x | 0 <= x < |dir| ensures DirOf(disk, start)[x] == dir[x] {
      assert disk[start + x / 16] == DirSector(dir, x / 16);
      DirAt(disk, start, dir, x);
    }
  }

  /** Remounting a synced platter rebuilds the very same volume. */
  lemma RemountIdentity(v: Volume)
    requires v.Shaped() && Synced(v)
    ensures ParseSuperblock(v.disk[FS_START_LBA]) == v.sb
    ensures MountImage(v.disk) == v
  {
    hide FatSector, DirSector, FatOf, DirOf, SuperblockSector, ParseSuperblock;
    SuperblockRoundTrip(v.sb);
    FatReloads(v.disk, v.sb.fatStart, v.sb.fatSectors, v.fat);
    DirReloads(v.disk, v.sb.dirStart, v.dir);
  }

  /** The two runs of sectors a flush writes. */
  lemma MetadataLogs(sb: Superblock, disk: seq<Sector>, fat: seq<u16>, dir: seq<Dirent>)
    requires WellPlaced(sb, |disk|) && |fat| == sb.fatSectors * 256 && |dir| == FS_DIR_ENTRIES
    ensures var a, b := FatLog(sb, fat), DirLog(sb, dir);
      var after := Replay(disk, a + b);
      && sb.fatStart + |a| <= sb.dirStart && sb.dirStart + |b| <= sb.dataStart
      && (forall k :: 0 <= k < |a| ==> after[sb.fatStart + k] == a[k].data)
      && (forall k :: 0 <= k < |b| ==> after[sb.dirStart + k] == b[k].data)
      && (forall l :: sb.fatStart + |a| <= l < sb.dirStart ==> after[l] == disk[l])
      && (forall l :: 0 <= l < |disk| && !(sb.fatStart <= l < sb.dataStart) ==> after[l] == disk[l])
  {
    hide Replay, DirSector, FatSector;
    ReplayTwoRegions(disk, FatLog(sb, fat), sb.fatStart, DirLog(sb, dir), sb.dirStart);
  }

  lemma FlushedFat(sb: Superblock, disk: seq<Sector>, fat: seq<u16>, dir: seq<Dirent>, s: nat)
    requires WellPlaced(sb, |disk|) && |fat| == sb.fatSectors * 256 && |dir| == FS_DIR_ENTRIES
    requires s < sb.fatSectors
    ensures Replay(disk, FatLog(sb, fat) + DirLog(sb, dir))[sb.fatStart + s] ==
            if s <= sb.dataBlocks / 256 then FatSector(fat, s) else disk[sb.fatStart + s]
  {
    hide Replay, DirSector, FatSector;
    MetadataLogs(sb, disk, fat, dir);
    if s < |FatLog(sb, fat)| {
      assert FatLog(sb, fat)[s].data == FatSector(fat, s);
    }
  }

  lemma FlushedDir(sb: Superblock, disk: seq<Sector>, fat: seq<u16>, dir: seq<Dirent>, s: nat)
    requires WellPlaced(sb, |disk|) && |fat| == sb.fatSectors * 256 && |dir| == FS_DIR_ENTRIES
    requires s < 4
    ensures Replay(disk, FatLog(sb, fat) + DirLog(sb, dir))[sb.dirStart + s] == DirSector(dir, s)
  {
    hide Replay, DirSector, FatSector;
    MetadataLogs(sb, disk, fat, dir);
    assert DirLog(sb, dir)[s].data == DirSector(dir, s);
  }

  lemma FlushedElsewhere(sb: Superblock, disk: seq<Sector>, fat: seq<u16>, dir: seq<Dirent>)
    requires WellPlaced(sb, |disk|) && |fat| == sb.fatSectors * 256 && |dir| == FS_DIR_ENTRIES
    ensures forall l :: 0 <= l < |disk| && !(sb.fatStart <= l < sb.dataStart) ==>
      Replay(disk, FatLog(sb, fat) + DirLog(sb, dir))[l] == disk[l]
  {
    hide Replay, DirSector, FatSector;
    MetadataLogs(sb, disk, fat, dir);
  }

  /** The metadata flush: afterwards the platter holds the new FAT and
      directory, and nothing else has changed. */
  lemma FlushSyncs(v: Volume, disk: seq<Sector>, fat: seq<u16>, dir: seq<Dirent>)
    requires v.Shaped() && Synced(v) && |disk| == |v.disk|
    requires forall l :: 0 <= l < v.sb.dataStart ==> disk[l] == v.disk[l]
    requires |fat| == |v.fat| && |dir| == FS_DIR_ENTRIES
    requires forall x :: v.sb.dataBlocks < x < |fat| ==> fat[x] == v.fat[x]
    ensures var after := Replay(disk, FatLog(v.sb, fat) + DirLog(v.sb, dir));
      && Synced(Volume(v.sb, fat, dir, after))
      && forall l :: v.sb.dataStart <= l < |disk| ==> after[l] == disk[l]
  {
    var sb := v.sb;
    var after := Replay(disk, FatLog(sb, fat) + DirLog(sb, dir));
    FlushedElsewhere(sb, disk, fat, dir);
    forall s | 0 <= s < sb.fatSectors ensures after[sb.fatStart + s] == FatSector(fat, s) {
      FlushedFat(sb, disk, fat, dir, s);
      if s > sb.dataBlocks / 256 {
        SameFatSector(v.fat, fat, s);
      }
    }
    forall s | 0 <= s < 4 ensures after[sb.dirStart + s] == DirSector(dir, s) {
      FlushedDir(sb, disk, fat, dir, s);
    }
  }

  lemma SameFatSector(f: seq<u16>, g: seq<u16>, s: nat)
    requires |f| == |g| && (s + 1) * 256 <= |f|
    requires forall x :: s * 256 <= x < (s + 1) * 256 ==> f[x] == g[x]
    ensures FatSector(f, s) == FatSector(g, s)
  {
  }

  lemma WriteLogParts(v: Volume, name: CString, data: seq<byte>)
    requires v.Shaped() && |data| < 0x1_0000_0000 && ValidName(name) && SlotFor(v.dir, name) >= 0
    ensures var r := FsWrite(v, name, data);
      && r.vol.Shaped() && r.vol.sb == v.sb && r.vol.disk == Replay(v.disk, r.log)
      && r.log == DataLog(v.sb, ChainFor(v, name, |data|), data) + (FatLog(v.sb, r.vol.fat) + DirLog(v.sb, r.vol.dir))
  {
  }
}
