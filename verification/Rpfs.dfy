/** The filesystem driver itself: caches updated in place, written through to a
    drive that may fail, proved against the operations of RpfsOps. */
module Rpfs {
  import opened Bytes
  import opened Drives
  import opened RpfsLayout
  import opened RpfsFat
  import opened RpfsVolume
  import opened RpfsOps
  import opened RpfsReadable
  import opened RpfsFiles
  import opened RpfsSpace
  import opened RpfsCrash
  import opened RpfsEndings
  import opened SaveEnding

  // --- facts the loops need -------------------------------------------------

  /** The caches in the middle of fs_write, with the first `j` blocks linked. */
  ghost predicate Linking(v: Volume, w: Volume, name: CString, len: u32, j: nat)
    requires v.Shaped() && ValidName(name) && SlotFor(v.dir, name) >= 0
    requires j <= |ChainFor(v, name, len)|
  {
    var c := ChainFor(v, name, len)[..j];
    && w.Shaped() && w.sb == v.sb
    && w.fat == Linked(DroppedFat(v, name), c)
    && w.dir == v.dir[SlotFor(v.dir, name) := Filled(EntryFor(v.dir, name), c, len)]
  }

  /** Any first part of the planned chain can stand as the file's chain. */
  lemma PlannedPrefix(v: Volume, name: CString, len: u32, j: nat)
    requires Inv(v) && ValidName(name) && SlotFor(v.dir, name) >= 0
    requires j <= |ChainFor(v, name, len)|
    ensures var c := ChainFor(v, name, len)[..j];
      && Ascending(c) && |c| <= BlocksFor(len)
      && forall k :: 0 <= k < |c| ==> 1 <= c[k] <= v.sb.dataBlocks && DroppedFat(v, name)[c[k]] == FAT_FREE
  {
    LowestFreeShape(DroppedFat(v, name), 1, v.sb.dataBlocks, BlocksFor(len));
  }

  lemma LinkingReplaces(v: Volume, w: Volume, name: CString, len: u32, j: nat)
    requires Inv(v) && ValidName(name) && SlotFor(v.dir, name) >= 0
    requires j <= |ChainFor(v, name, len)| && Linking(v, w, name, len, j)
    ensures var c := ChainFor(v, name, len)[..j];
      ReplacesSlot(v, w, SlotFor(v.dir, name), Filled(EntryFor(v.dir, name), c, len), c)
  {
    PlannedPrefix(v, name, len, j);
    NameIsFree(v, name);
  }

  lemma LinkingKeepsInv(v: Volume, w: Volume, name: CString, len: u32, j: nat)
    requires Inv(v) && ValidName(name) && SlotFor(v.dir, name) >= 0
    requires j <= |ChainFor(v, name, len)| && Linking(v, w, name, len, j)
    ensures Inv(w) && w.ChainOf(SlotFor(v.dir, name)) == ChainFor(v, name, len)[..j]
  {
    var c := ChainFor(v, name, len)[..j];
    LinkingReplaces(v, w, name, len, j);
    ReplaceKeepsInv(v, w, SlotFor(v.dir, name), Filled(EntryFor(v.dir, name), c, len), c);
  }

  /** The metadata fs_write leaves behind when it gets as far as choosing a slot:
      the specified one, or, after a failed data write, a file of the full size
      with only a first part of its chain. */
  ghost predicate Left(v: Volume, w: Volume, name: CString, data: seq<byte>)
    requires v.Shaped() && |data| < 0x1_0000_0000 && ValidName(name) && SlotFor(v.dir, name) >= 0
  {
    var after := FsWrite(v, name, data).vol;
    || (w.fat == after.fat && w.dir == after.dir)
    || exists j :: 0 <= j <= |ChainFor(v, name, |data|)| && Linking(v, w, name, |data|, j)
  }

  /** A file left by a failed data write has its full size, but every block it
      needs only when the failing write was its last. */
  lemma ErrorLeavesShortChain(v: Volume, w: Volume, name: CString, len: u32, j: nat)
    requires Inv(v) && RpfsVolume.Complete(v) && ValidName(name) && SlotFor(v.dir, name) >= 0
    requires j <= |ChainFor(v, name, len)| && Linking(v, w, name, len, j)
    ensures Inv(w) && w.dir[SlotFor(v.dir, name)].size == len && |w.ChainOf(SlotFor(v.dir, name))| == j
    ensures RpfsVolume.Complete(w) <==> j == BlocksFor(len)
    ensures Fitting(w)
  {
    LinkingKeepsInv(v, w, name, len, j);
    LinkingReplaces(v, w, name, len, j);
    var i, c := SlotFor(v.dir, name), ChainFor(v, name, len)[..j];
    ReplaceKeepsInv(v, w, i, Filled(EntryFor(v.dir, name), c, len), c);
    hide Inv, ReplacesSlot, Linked, DroppedFat;
    assert w.dir[i].size == len && Used(w.dir[i]);
  }

  /** File `n` is listed in both volumes with the same contents, or in neither. */
  ghost predicate SameFile(v: Volume, w: Volume, n: CString) {
    var i, j := Find(v.dir, n), Find(w.dir, n);
    (i < 0 && j < 0) || (i >= 0 && j >= 0 && v.ContentOf(i) == w.ContentOf(j))
  }

  /** Blocks not written keep other files' contents, whatever became of the metadata. */
  lemma OthersSurvive(v: Volume, w: Volume, i: nat, e: Dirent, c: seq<u16>, n: CString)
    requires Inv(v) && Inv(w) && i < FS_DIR_ENTRIES && ReplacesSlot(v, w, i, e, c)
    requires |w.disk| == |v.disk|
    requires forall b: u16 :: 1 <= b <= v.sb.dataBlocks && v.fat[b] != FAT_FREE && b !in v.ChainOf(i) ==>
      w.disk[BlockLba(v.sb, b)] == v.disk[BlockLba(v.sb, b)]
    requires (Used(v.dir[i]) ==> Text(v.dir[i].name) != n) && (Used(e) ==> Text(e.name) != n)
    ensures SameFile(v, w, n)
  {
    FindElsewhere(v, w, i, n);
    var j := Find(v.dir, n);
    if j >= 0 {
      OthersKeepContent(v, w, i, e, c, j);
    }
  }

  /** Everything logged since `before` is one of the planned writes. */
  ghost predicate Planned(before: seq<SectorWrite>, log: seq<SectorWrite>, plan: seq<SectorWrite>) {
    before <= log && forall k :: |before| <= k < |log| ==> log[k] in plan
  }

  /** What was logged since, as a run of planned writes of its own. */
  lemma LogDone(image: seq<Sector>, start: seq<SectorWrite>, log: seq<SectorWrite>, plan: seq<SectorWrite>)
    requires Planned(start, log, plan)
    ensures |start| <= |log|
    ensures var done := log[|start|..];
      && log == start + done && Replay(image, log) == Replay(Replay(image, start), done)
      && forall k :: 0 <= k < |done| ==> done[k] in plan
  {
    var done := log[|start|..];
    assert log == start + done;
    ReplayConcat(image, start, done);
    hide Replay;
    forall k | 0 <= k < |done| ensures done[k] in plan {
      assert done[k] == log[|start| + k];
    }
  }

  lemma PlannedParts(before: seq<SectorWrite>, mid: seq<SectorWrite>, log: seq<SectorWrite>,
                     f: seq<SectorWrite>, d: seq<SectorWrite>)
    requires before <= mid <= before + f && mid <= log <= mid + d
    ensures Planned(before, log, f + d)
  {
    forall k | |before| <= k < |log| ensures log[k] in f + d {
      if k < |mid| {
        assert log[k] == mid[k] == (before + f)[k] == f[k - |before|];
      } else {
        assert log[k] == (mid + d)[k] == d[k - |mid|];
      }
    }
  }

  lemma PlannedThen(a: seq<SectorWrite>, b: seq<SectorWrite>, c: seq<SectorWrite>,
                    p: seq<SectorWrite>, q: seq<SectorWrite>)
    requires Planned(a, b, p) && Planned(b, c, q)
    ensures Planned(a, c, p + q)
  {
    forall k | |a| <= k < |c| ensures c[k] in p + q {
      if k < |b| {
        assert c[k] == b[k];
      }
    }
  }

  lemma PlannedPrefixLog(a: seq<SectorWrite>, b: seq<SectorWrite>, p: seq<SectorWrite>)
    requires a <= b <= a + p
    ensures Planned(a, b, p)
  {
    forall k | |a| <= k < |b| ensures b[k] in p {
      assert b[k] == (a + p)[k] == p[k - |a|];
    }
  }

  lemma PlannedMore(a: seq<SectorWrite>, b: seq<SectorWrite>, p: seq<SectorWrite>, q: seq<SectorWrite>)
    requires Planned(a, b, p)
    ensures Planned(a, b, p + q)
  {
  }

  /** ReplacesSlot does not look at the sectors. */
  lemma SameReplacement(v: Volume, w: Volume, u: Volume, i: nat, e: Dirent, c: seq<u16>)
    requires v.Shaped() && i < FS_DIR_ENTRIES && ReplacesSlot(v, w, i, e, c)
    requires u.sb == w.sb && u.fat == w.fat && u.dir == w.dir && |u.disk| == |w.disk|
    ensures ReplacesSlot(v, u, i, e, c)
  {
  }

  /** However fs_write ended, a consistent replacement of the slot and planned
      writes only leave a consistent volume with every other file intact. */
  lemma Settled(v: Volume, w: Volume, name: CString, data: seq<byte>, e: Dirent, c: seq<u16>,
                image: seq<Sector>, start: seq<SectorWrite>, log: seq<SectorWrite>)
    requires Inv(v) && |data| < 0x1_0000_0000 && ValidName(name) && SlotFor(v.dir, name) >= 0
    requires ReplacesSlot(v, w, SlotFor(v.dir, name), e, c) && Used(e) && Text(e.name) == name
    requires v.disk == Replay(image, start) && w.disk == Replay(image, log)
    requires Planned(start, log, FsWrite(v, name, data).log)
    ensures Inv(w)
    ensures forall n: CString :: n != name ==> SameFile(v, w, n)
  {
    ReplacedSize(v, w, SlotFor(v.dir, name), e, c);
    SlotNames(v, name);
    SettledSectors(v, w, name, data, image, start, log);
    hide Inv, ReplacesSlot, SameFile, FsWrite, Replay, SlotFor, Find, Text, Chain, Planned;
    ReplaceKeepsInv(v, w, SlotFor(v.dir, name), e, c);
    forall n: CString | n != name ensures SameFile(v, w, n) {
      OthersSurvive(v, w, SlotFor(v.dir, name), e, c, n);
    }
  }

  lemma SettledSectors(v: Volume, w: Volume, name: CString, data: seq<byte>,
                       image: seq<Sector>, start: seq<SectorWrite>, log: seq<SectorWrite>)
    requires Inv(v) && |data| < 0x1_0000_0000 && ValidName(name) && SlotFor(v.dir, name) >= 0
    requires v.disk == Replay(image, start) && w.disk == Replay(image, log)
    requires Planned(start, log, FsWrite(v, name, data).log)
    ensures |w.disk| == |v.disk|
    ensures forall b: u16 ::
      1 <= b <= v.sb.dataBlocks && v.fat[b] != FAT_FREE && b !in v.ChainOf(SlotFor(v.dir, name)) ==>
      w.disk[BlockLba(v.sb, b)] == v.disk[BlockLba(v.sb, b)]
  {
    InvShaped(v);
    hide Inv, FsWrite, Replay, SlotFor, Chain, Planned, NamesOk, SlotOk;
    LogDone(image, start, log, FsWrite(v, name, data).log);
    PlannedKeepsOthers(v, name, data, log[|start|..]);
  }

  lemma ReplacedSize(v: Volume, w: Volume, i: nat, e: Dirent, c: seq<u16>)
    requires Inv(v) && i < FS_DIR_ENTRIES && ReplacesSlot(v, w, i, e, c)
    ensures v.Shaped() && w.Shaped()
  {
  }

  lemma SlotNames(v: Volume, name: CString)
    requires |v.dir| == FS_DIR_ENTRIES && SlotFor(v.dir, name) >= 0
    ensures Used(v.dir[SlotFor(v.dir, name)]) ==> Text(v.dir[SlotFor(v.dir, name)].name) == name
  {
  }

  /** Running some of the planned writes of fs_write leaves other files' sectors alone. */
  lemma PlannedKeepsOthers(v: Volume, name: CString, data: seq<byte>, done: seq<SectorWrite>)
    requires Inv(v) && |data| < 0x1_0000_0000 && ValidName(name) && SlotFor(v.dir, name) >= 0
    requires forall k :: 0 <= k < |done| ==> done[k] in FsWrite(v, name, data).log
    ensures forall b: u16 ::
      1 <= b <= v.sb.dataBlocks && v.fat[b] != FAT_FREE && b !in v.ChainOf(SlotFor(v.dir, name)) ==>
      Replay(v.disk, done)[BlockLba(v.sb, b)] == v.disk[BlockLba(v.sb, b)]
  {
    TakenBlocks(v, name, |data|);
    forall b: u16 | 1 <= b <= v.sb.dataBlocks && v.fat[b] != FAT_FREE && b !in v.ChainOf(SlotFor(v.dir, name))
      ensures Replay(v.disk, done)[BlockLba(v.sb, b)] == v.disk[BlockLba(v.sb, b)]
    {
      PlannedMisses(v, name, data, done, b);
    }
  }

  lemma PlannedMisses(v: Volume, name: CString, data: seq<byte>, done: seq<SectorWrite>, b: u16)
    requires v.Shaped() && |data| < 0x1_0000_0000 && ValidName(name) && SlotFor(v.dir, name) >= 0
    requires forall k :: 0 <= k < |done| ==> done[k] in FsWrite(v, name, data).log
    requires 1 <= b <= v.sb.dataBlocks && b !in ChainFor(v, name, |data|)
    ensures Replay(v.disk, done)[BlockLba(v.sb, b)] == v.disk[BlockLba(v.sb, b)]
  {
    forall k | 0 <= k < |done| ensures done[k].lba != BlockLba(v.sb, b) {
      OneMisses(v, name, data, done[k], b);
    }
    ReplayMisses(v.disk, done, BlockLba(v.sb, b));
  }

  lemma OneMisses(v: Volume, name: CString, data: seq<byte>, w: SectorWrite, b: u16)
    requires v.Shaped() && |data| < 0x1_0000_0000 && ValidName(name) && SlotFor(v.dir, name) >= 0
    requires w in FsWrite(v, name, data).log
    requires 1 <= b <= v.sb.dataBlocks && b !in ChainFor(v, name, |data|)
    ensures w.lba != BlockLba(v.sb, b)
  {
    WriteAllowed(v, name, data, w);
  }

  /** Unlinking a chain that was just linked out of free blocks restores the table. */
  lemma UnlinkRestores(fat: seq<u16>, c: seq<u16>)
    requires Ascending(c) && forall k :: 0 <= k < |c| ==> c[k] < |fat| && fat[c[k]] == FAT_FREE
    ensures Cleared(Linked(fat, c), c) == fat
  {
    LinkedShape(fat, c);
  }

  /** fs_write stopped by a failed data write. */
  lemma StoppedByError(v: Volume, w: Volume, name: CString, data: seq<byte>, j: nat,
                       image: seq<Sector>, start: seq<SectorWrite>, log: seq<SectorWrite>)
    requires Inv(v) && |data| < 0x1_0000_0000 && ValidName(name) && SlotFor(v.dir, name) >= 0
    requires j <= |ChainFor(v, name, |data|)| && Linking(v, w, name, |data|, j)
    requires start <= log <= start + DataLog(v.sb, ChainFor(v, name, |data|), data)
    requires v.disk == Replay(image, start) && w.disk == Replay(image, log)
    ensures Inv(w)
    ensures forall n: CString :: n != name ==> SameFile(v, w, n)
  {
    var c := ChainFor(v, name, |data|);
    StoppedPlanned(v, name, data, start, log);
    LinkingReplaces(v, w, name, |data|, j);
    Settled(v, w, name, data, Filled(EntryFor(v.dir, name), c[..j], |data|), c[..j], image, start, log);
  }

  lemma StoppedPlanned(v: Volume, name: CString, data: seq<byte>, start: seq<SectorWrite>, log: seq<SectorWrite>)
    requires v.Shaped() && |data| < 0x1_0000_0000 && ValidName(name) && SlotFor(v.dir, name) >= 0
    requires start <= log <= start + DataLog(v.sb, ChainFor(v, name, |data|), data)
    ensures Planned(start, log, FsWrite(v, name, data).log)
  {
    var after, plan := FsWrite(v, name, data).vol, DataLog(v.sb, ChainFor(v, name, |data|), data);
    PlannedPrefixLog(start, log, plan);
    PlannedMore(start, log, plan, FatLog(v.sb, after.fat) + DirLog(v.sb, after.dir));
    WriteLogParts(v, name, data);
  }

  // --- volumes that are only readable ---------------------------------------

  /** Files other than `name` whose blocks the write does not drop or take. */
  ghost predicate OutOfReach(v: Volume, name: CString, n: CString)
    requires v.Shaped() && SlotFor(v.dir, name) >= 0
  {
    n != name && Apart(v, SlotFor(v.dir, name), n) && Holds(v, n)
  }

  lemma PrefixIsFree(v: Volume, name: CString, len: u32, j: nat)
    requires v.Shaped() && ValidName(name) && SlotFor(v.dir, name) >= 0 && j <= |ChainFor(v, name, len)|
    ensures var c := ChainFor(v, name, len)[..j];
      && Ascending(c) && |c| <= BlocksFor(len)
      && forall k :: 0 <= k < |c| ==> 1 <= c[k] <= v.sb.dataBlocks < |v.fat| && DroppedFat(v, name)[c[k]] == FAT_FREE
  {
    LowestFreeShape(DroppedFat(v, name), 1, v.sb.dataBlocks, BlocksFor(len));
  }

  /** Planned writes leave the blocks alone that are in use once the old chain
      is dropped. */
  lemma PlannedKeepsTaken(v: Volume, name: CString, data: seq<byte>,
                          image: seq<Sector>, start: seq<SectorWrite>, log: seq<SectorWrite>)
    requires v.Shaped() && |data| < 0x1_0000_0000 && ValidName(name) && SlotFor(v.dir, name) >= 0
    requires v.disk == Replay(image, start) && Planned(start, log, FsWrite(v, name, data).log)
    ensures forall b: u16 :: 1 <= b <= v.sb.dataBlocks < |v.fat| && DroppedFat(v, name)[b] != FAT_FREE ==>
      0 <= BlockLba(v.sb, b) < |v.disk| && Replay(image, log)[BlockLba(v.sb, b)] == v.disk[BlockLba(v.sb, b)]
  {
    hide Replay, FsWrite, ChainFor, DroppedFat, Planned;
    LogDone(image, start, log, FsWrite(v, name, data).log);
    var done := log[|start|..];
    forall b: u16 | 1 <= b <= v.sb.dataBlocks < |v.fat| && DroppedFat(v, name)[b] != FAT_FREE
      ensures 0 <= BlockLba(v.sb, b) < |v.disk| && Replay(image, log)[BlockLba(v.sb, b)] == v.disk[BlockLba(v.sb, b)]
    {
      ChosenAreDropped(v, name, |data|, b);
      PlannedMisses(v, name, data, done, b);
    }
  }

  lemma ChosenAreDropped(v: Volume, name: CString, len: nat, b: u16)
    requires v.Shaped() && SlotFor(v.dir, name) >= 0 && b < |v.fat| && DroppedFat(v, name)[b] != FAT_FREE
    ensures b !in ChainFor(v, name, len)
  {
    LowestFreeShape(DroppedFat(v, name), 1, v.sb.dataBlocks, BlocksFor(len));
  }

  /** Wherever fs_write ends, the volume can be read, and the files out of its
      reach read as before. */
  lemma StillReadable(v: Volume, w: Volume, name: CString, data: seq<byte>, e: Dirent, c: seq<u16>,
                      image: seq<Sector>, start: seq<SectorWrite>, log: seq<SectorWrite>)
    requires Readable(v) && |data| < 0x1_0000_0000 && ValidName(name) && SlotFor(v.dir, name) >= 0
    requires w.Shaped() && w.sb == v.sb && Ascending(c) && forall k :: 0 <= k < |c| ==>
      1 <= c[k] <= v.sb.dataBlocks < |v.fat| && DroppedFat(v, name)[c[k]] == FAT_FREE
    requires w.fat == Linked(DroppedFat(v, name), c) && w.dir == v.dir[SlotFor(v.dir, name) := e]
    requires Used(e) && Text(e.name) == name && e.first == Head(c)
    requires v.disk == Replay(image, start) && w.disk == Replay(image, log)
    requires Planned(start, log, FsWrite(v, name, data).log)
    ensures Readable(w)
    ensures forall n: CString :: OutOfReach(v, name, n) ==> ReadsAlike(v, w, n)
  {
    hide Replay, FsWrite, Planned, Linked, Readable, ReadsAlike, Apart, Holds, SlotFor, Text, DroppedFat;
    PlannedKeepsTaken(v, name, data, image, start, log);
    DroppedLinks(v, name);
    LinkedKeepsLinks(DroppedFat(v, name), c, v.sb.dataBlocks);
    EntryKeepsReadable(v, w, SlotFor(v.dir, name), e);
    forall n: CString | OutOfReach(v, name, n) ensures ReadsAlike(v, w, n) {
      WriteKeepsRead(v, w, name, c, e, n);
    }
  }

  lemma DroppedLinks(v: Volume, name: CString)
    requires Readable(v) && SlotFor(v.dir, name) >= 0
    ensures v.Shaped() && v.sb.dataBlocks < |v.fat| == |DroppedFat(v, name)|
    ensures LinksOk(DroppedFat(v, name), v.sb.dataBlocks)
  {
    FreedKeepsLinks(v, SlotFor(v.dir, name));
  }

  /** The same after a failed data write. */
  lemma StoppedReadable(v: Volume, w: Volume, name: CString, data: seq<byte>, j: nat,
                        image: seq<Sector>, start: seq<SectorWrite>, log: seq<SectorWrite>)
    requires Readable(v) && |data| < 0x1_0000_0000 && ValidName(name) && SlotFor(v.dir, name) >= 0
    requires j <= |ChainFor(v, name, |data|)| && Linking(v, w, name, |data|, j)
    requires v.disk == Replay(image, start) && w.disk == Replay(image, log)
    requires Planned(start, log, FsWrite(v, name, data).log)
    ensures Readable(w)
    ensures forall n: CString :: OutOfReach(v, name, n) ==> ReadsAlike(v, w, n)
  {
    hide Replay, FsWrite, Planned, Linked, Readable, ReadsAlike, OutOfReach, SlotFor, Text, DroppedFat, ChainFor;
    var c := ChainFor(v, name, |data|)[..j];
    PrefixIsFree(v, name, |data|, j);
    StillReadable(v, w, name, data, Filled(EntryFor(v.dir, name), c, |data|), c, image, start, log);
  }

  /** And after the flush. */
  lemma FlushedReadable(v: Volume, w: Volume, name: CString, data: seq<byte>,
                        image: seq<Sector>, start: seq<SectorWrite>, log: seq<SectorWrite>)
    requires Readable(v) && |data| < 0x1_0000_0000 && ValidName(name) && SlotFor(v.dir, name) >= 0
    requires w == FsWrite(v, name, data).vol.(disk := w.disk) && w.Shaped()
    requires v.disk == Replay(image, start) && w.disk == Replay(image, log)
    requires Planned(start, log, FsWrite(v, name, data).log)
    ensures Readable(w)
    ensures forall n: CString :: OutOfReach(v, name, n) ==> ReadsAlike(v, w, n)
  {
    var c := ChainFor(v, name, |data|);
    PrefixIsFree(v, name, |data|, |c|);
    assert c[..|c|] == c;
    LinkNothing(DroppedFat(v, name));
    var ok, e := FsWrite(v, name, data).ok, EntryFor(v.dir, name);
    WrittenMetadata(v, name, data);
    hide Replay, FsWrite, Planned, Linked, Readable, ReadsAlike, OutOfReach, SlotFor, Text, DroppedFat, ChainFor;
    if ok {
      StillReadable(v, w, name, data, Filled(e, c, |data|), c, image, start, log);
    } else {
      StillReadable(v, w, name, data, Filled(e, [], 0), [], image, start, log);
    }
  }

  lemma WrittenMetadata(v: Volume, name: CString, data: seq<byte>)
    requires v.Shaped() && |data| < 0x1_0000_0000 && ValidName(name) && SlotFor(v.dir, name) >= 0
    ensures var r, i, c := FsWrite(v, name, data), SlotFor(v.dir, name), ChainFor(v, name, |data|);
      var e := EntryFor(v.dir, name);
      && r.vol.sb == v.sb && |r.vol.disk| == |v.disk|
      && r.vol.fat == (if r.ok then Linked(DroppedFat(v, name), c) else DroppedFat(v, name))
      && r.vol.dir == v.dir[i := if r.ok then Filled(e, c, |data|) else Filled(e, [], 0)]
  {
  }

  /** A log that stops in or just before entry `n` of a plan. */
  lemma StopsAt(image: seq<Sector>, start: seq<SectorWrite>, log: seq<SectorWrite>, plan: seq<SectorWrite>, n: nat)
    requires n < |plan| && start + plan[..n] <= log <= start + plan[..n + 1]
    ensures var q := |log| - |start|;
      n <= q <= n + 1 && Replay(image, log) == Replay(Replay(image, start), plan[..q])
  {
    var q := |log| - |start|;
    assert log == start + plan[..q] by {
      assert q == n || q == n + 1;
    }
    ReplayConcat(image, start, plan[..q]);
  }

  /** The contents of a file whose chain was cut off after block `n`. */
  lemma CutContents(v: Volume, w: Volume, name: CString, data: seq<byte>, n: nat, q: nat)
    requires v.Shaped() && |data| < 0x1_0000_0000 && SlotFor(v.dir, name) >= 0
    requires n < |ChainFor(v, name, |data|)| && n <= q <= n + 1
    requires w.disk == Replay(v.disk, DataLog(v.sb, ChainFor(v, name, |data|), data)[..q])
    ensures var c := ChainFor(v, name, |data|);
      && 512 * n < |data| && 0 <= BlockLba(v.sb, c[n]) < |w.disk|
      && Gather(w.disk, v.sb, c[..n + 1], |data|)
         == data[..512 * n] + w.disk[BlockLba(v.sb, c[n])][..Min(512, |data| - 512 * n)]
  {
    hide ChainFor, DataLog, Replay, Chunk, BlockLba, Gather;
    var c := ChainFor(v, name, |data|);
    BlocksOnDrive(v);
    forall m | 0 <= m < n ensures w.disk[BlockLba(v.sb, c[m])] == Chunk(data, m) {
      PrefixLanded(v, name, data, q, m);
    }
    GatherCut(w.disk, v.sb, c[..n + 1], data, n, 0);
    assert c[..n + 1][0..] == c[..n + 1] && data[0..512 * n] == data[..512 * n];
  }

  lemma LinkedFile(v: Volume, w: Volume, name: CString, len: u32, j: nat)
    requires v.Shaped() && ValidName(name) && SlotFor(v.dir, name) >= 0
    requires j <= |ChainFor(v, name, len)| && Linking(v, w, name, len, j)
    ensures FileOf(w, name) == Gather(w.disk, v.sb, ChainFor(v, name, len)[..j], len)
  {
    hide ChainFor, Gather, SlotFor, DroppedFat, Linked, FileOf, Find, Text;
    var c := ChainFor(v, name, len)[..j];
    PrefixIsFree(v, name, len, j);
    RewrittenFile(v, w, name, Filled(EntryFor(v.dir, name), c, len), c);
  }

  /** What such an error leaves of the file: its first blocks, and whatever the
      failing block holds. */
  lemma CutFile(v: Volume, w: Volume, name: CString, data: seq<byte>, j: nat,
                image: seq<Sector>, start: seq<SectorWrite>, log: seq<SectorWrite>)
    returns (how: Ending)
    requires v.Shaped() && |data| < 0x1_0000_0000 && ValidName(name) && SlotFor(v.dir, name) >= 0
    requires 0 < j <= |ChainFor(v, name, |data|)| && Linking(v, w, name, |data|, j)
    requires var plan := DataLog(v.sb, ChainFor(v, name, |data|), data);
      start + plan[..j - 1] <= log <= start + plan[..j]
    requires v.disk == Replay(image, start) && w.disk == Replay(image, log)
    ensures how.BlockFailed? && Possible(data, how) && FileOf(w, name) == Contents([], data, how)
  {
    hide Inv, ReplacesSlot, Linking, ChainFor, Replay, FileOf, Gather, DataLog, Linked, EntryFor, Chunk, SlotFor, Find;
    LinkedFile(v, w, name, |data|, j);
    var c, n := ChainFor(v, name, |data|), j - 1;
    StopsAt(image, start, log, DataLog(v.sb, c, data), n);
    CutContents(v, w, name, data, n, |log| - |start|);
    how := BlockFailed(n, w.disk[BlockLba(v.sb, c[n])][..Min(512, |data| - 512 * n)]);
  }

  /** The metadata that is flushed is the specified one. */
  lemma BuiltMetadata(v: Volume, w: Volume, name: CString, data: seq<byte>, j: nat)
    requires v.Shaped() && |data| < 0x1_0000_0000 && ValidName(name) && SlotFor(v.dir, name) >= 0
    requires j == |ChainFor(v, name, |data|)| && Linking(v, w, name, |data|, j)
    ensures var i, after := SlotFor(v.dir, name), FsWrite(v, name, data);
      if after.ok then w.fat == after.vol.fat && w.dir == after.vol.dir
      else after.vol.fat == DroppedFat(v, name) && after.vol.dir == v.dir[i := Filled(EntryFor(v.dir, name), [], 0)]
  {
    assert ChainFor(v, name, |data|)[..j] == ChainFor(v, name, |data|);
  }

  /** fs_write after its final flush, complete or not. */
  lemma Finished(v: Volume, w: Volume, name: CString, data: seq<byte>,
                 image: seq<Sector>, start: seq<SectorWrite>, mid: seq<SectorWrite>, log: seq<SectorWrite>)
    requires Inv(v) && |data| < 0x1_0000_0000 && ValidName(name) && SlotFor(v.dir, name) >= 0
    requires var after := FsWrite(v, name, data).vol;
      && w == after.(disk := w.disk) && mid == start + DataLog(v.sb, ChainFor(v, name, |data|), data)
      && Planned(mid, log, FatLog(v.sb, after.fat) + DirLog(v.sb, after.dir))
    requires v.disk == Replay(image, start) && w.disk == Replay(image, log)
    ensures Inv(w) && Planned(start, log, FsWrite(v, name, data).log)
    ensures forall n: CString :: n != name ==> SameFile(v, w, n)
    ensures log == mid + (FatLog(v.sb, w.fat) + DirLog(v.sb, w.dir)) ==>
      w == FsWrite(v, name, data).vol && log == start + FsWrite(v, name, data).log
  {
    hide Inv, ReplacesSlot, SameFile, Replay, FsWrite, ChainFor, Planned, DataLog, FatLog, DirLog, NamesOk, SlotOk;
    InvShaped(v);
    var r, i, c, e := FsWrite(v, name, data), SlotFor(v.dir, name), ChainFor(v, name, |data|), EntryFor(v.dir, name);
    FinishedLog(v, w, name, data, image, start, mid, log);
    if r.ok {
      WriteReplaces(v, name, data);
      SameReplacement(v, r.vol, w, i, Filled(e, c, |data|), c);
      Settled(v, w, name, data, Filled(e, c, |data|), c, image, start, log);
    } else {
      FullWriteReplaces(v, name, data);
      SameReplacement(v, r.vol, w, i, Filled(e, [], 0), []);
      Settled(v, w, name, data, Filled(e, [], 0), [], image, start, log);
    }
  }

  lemma FinishedLog(v: Volume, w: Volume, name: CString, data: seq<byte>,
                    image: seq<Sector>, start: seq<SectorWrite>, mid: seq<SectorWrite>, log: seq<SectorWrite>)
    requires v.Shaped() && |data| < 0x1_0000_0000 && ValidName(name) && SlotFor(v.dir, name) >= 0
    requires var after := FsWrite(v, name, data).vol;
      && w == after.(disk := w.disk) && mid == start + DataLog(v.sb, ChainFor(v, name, |data|), data)
      && Planned(mid, log, FatLog(v.sb, after.fat) + DirLog(v.sb, after.dir))
    requires v.disk == Replay(image, start) && w.disk == Replay(image, log)
    ensures FsWrite(v, name, data).vol.Shaped() && |w.disk| == |FsWrite(v, name, data).vol.disk|
    ensures Planned(start, log, FsWrite(v, name, data).log)
    ensures log == mid + (FatLog(v.sb, w.fat) + DirLog(v.sb, w.dir)) ==>
      w == FsWrite(v, name, data).vol && log == start + FsWrite(v, name, data).log
  {
    hide Replay, FsWrite, ChainFor, Planned, DataLog, FatLog, DirLog;
    WriteLogParts(v, name, data);
    var r, c := FsWrite(v, name, data), ChainFor(v, name, |data|);
    var plan, rest := DataLog(v.sb, c, data), FatLog(v.sb, r.vol.fat) + DirLog(v.sb, r.vol.dir);
    PlannedPrefixLog(start, mid, plan);
    PlannedThen(start, mid, log, plan, rest);
    assert mid + rest == start + (plan + rest);
    ReplayConcat(image, start, r.log);
  }

  /** The file itself then: the data, or nothing when the disk was full. */
  lemma FinishedFile(v: Volume, w: Volume, name: CString, data: seq<byte>,
                     image: seq<Sector>, start: seq<SectorWrite>, mid: seq<SectorWrite>, log: seq<SectorWrite>)
    requires v.Shaped() && |data| < 0x1_0000_0000 && ValidName(name) && SlotFor(v.dir, name) >= 0
    requires var after := FsWrite(v, name, data).vol;
      && w == after.(disk := w.disk) && mid == start + DataLog(v.sb, ChainFor(v, name, |data|), data)
      && Planned(mid, log, FatLog(v.sb, after.fat) + DirLog(v.sb, after.dir))
    requires v.disk == Replay(image, start) && w.disk == Replay(image, log)
    ensures FileOf(w, name) == if FsWrite(v, name, data).ok then data else []
  {
    var c, e := ChainFor(v, name, |data|), EntryFor(v.dir, name);
    WriteLogParts(v, name, data);
    WrittenMetadata(v, name, data);
    PrefixIsFree(v, name, |data|, |c|);
    assert c[..|c|] == c;
    LinkNothing(DroppedFat(v, name));
    hide Replay, FsWrite, ChainFor, DataLog, FatLog, DirLog, FileOf, Planned, Gather, DroppedFat, Linked, SlotFor, Find;
    if FsWrite(v, name, data).ok {
      FinishedBlocks(v, w, name, data, image, start, mid, log);
      RewrittenFile(v, w, name, Filled(e, c, |data|), c);
    } else {
      RewrittenFile(v, w, name, Filled(e, [], 0), []);
      NothingGathered(w.disk, v.sb);
    }
  }

  lemma NothingGathered(disk: seq<Sector>, sb: Superblock)
    ensures Gather(disk, sb, [], 0) == []
  {
  }

  lemma FinishedBlocks(v: Volume, w: Volume, name: CString, data: seq<byte>,
                       image: seq<Sector>, start: seq<SectorWrite>, mid: seq<SectorWrite>, log: seq<SectorWrite>)
    requires v.Shaped() && |data| < 0x1_0000_0000 && FsWrite(v, name, data).ok && SlotFor(v.dir, name) >= 0
    requires var after := FsWrite(v, name, data).vol;
      && w == after.(disk := w.disk) && mid == start + DataLog(v.sb, ChainFor(v, name, |data|), data)
      && after.Shaped() && after.sb == v.sb
      && Planned(mid, log, FatLog(v.sb, after.fat) + DirLog(v.sb, after.dir))
    requires v.disk == Replay(image, start) && w.disk == Replay(image, log)
    ensures Gather(w.disk, v.sb, ChainFor(v, name, |data|), |data|) == data
  {
    OkChain(v, name, data);
    hide Replay, FsWrite, ChainFor, FatLog, DirLog, Chunk, Gather;
    var r, c := FsWrite(v, name, data), ChainFor(v, name, |data|);
    var plan, done := DataLog(v.sb, c, data), log[|mid|..];
    assert log == mid + done;
    ReplayConcat(image, mid, done);
    ReplayConcat(image, start, plan);
    forall m | 0 <= m < |c|
      ensures 0 <= BlockLba(v.sb, c[m]) < |w.disk| && w.disk[BlockLba(v.sb, c[m])] == Chunk(data, m) {
      FlushedLanded(v, name, data, r.vol.fat, r.vol.dir, done, m);
    }
    GatherAll(w.disk, v.sb, c, data);
  }

  /** The parts of fs_delete. */
  lemma DeletePlan(v: Volume, name: CString)
    requires Readable(v)
    ensures v.Shaped() && v.sb.dataBlocks < |v.fat| && v.sb.dataBlocks <= MAX_BLOCKS &&
      InRange(v.fat) && |v.dir| == FS_DIR_ENTRIES
    ensures var r, i := FsDelete(v, name), Find(v.dir, name);
      if i < 0 then r == Outcome(v, [], false) && forall n: CString :: SameFile(v, v, n) && ReadsAlike(v, v, n)
      else
        && (IsBlock(v.dir[i].first) ==> v.dir[i].first < |v.fat|)
        && r.ok && r.vol.sb == v.sb && r.vol.fat == Freed(v.fat, v.dir[i].first) && r.vol.dir == v.dir[i := BLANK]
        && r.log == FatLog(v.sb, r.vol.fat) + DirLog(v.sb, r.vol.dir) && r.vol.disk == Replay(v.disk, r.log)
  {
    hide Freed;
  }

  /** Wherever fs_delete ends, the volume can be read, and files apart from the
      deleted one read as before. */
  lemma DeleteReadable(v: Volume, w: Volume, name: CString, image: seq<Sector>,
                       start: seq<SectorWrite>, log: seq<SectorWrite>)
    requires Readable(v) && Find(v.dir, name) >= 0
    requires w == FsDelete(v, name).vol.(disk := w.disk) && Planned(start, log, FsDelete(v, name).log)
    requires v.disk == Replay(image, start) && w.disk == Replay(image, log)
    ensures Readable(w)
    ensures forall n: CString :: n != name && Apart(v, Find(v.dir, name), n) ==> ReadsAlike(v, w, n)
    ensures log == start + FsDelete(v, name).log ==> w == FsDelete(v, name).vol
  {
    DeletedParts(v, name);
    hide FsDelete, Readable, ReadsAlike, Apart, Find, Planned, Replay, Text, FreedSlot, LinksOk;
    var i, done := Find(v.dir, name), log[Min(|start|, |log|)..];
    LogDone(image, start, log, FsDelete(v, name).log);
    DeleteKeepsSectors(v, name, done);
    ReadableLinks(v);
    FreedKeepsLinks(v, i);
    EntryKeepsReadable(v, w, i, BLANK);
    forall n: CString | n != name && Apart(v, i, n) ensures ReadsAlike(v, w, n) {
      DropKeepsRead(v, w, i, n);
    }
  }

  lemma ReadableLinks(v: Volume)
    requires Readable(v)
    ensures v.Shaped() && LinksOk(v.fat, v.sb.dataBlocks)
  {
  }

  lemma DeletedParts(v: Volume, name: CString)
    requires v.Shaped() && Find(v.dir, name) >= 0
    ensures var r, i := FsDelete(v, name), Find(v.dir, name);
      && r.vol.Shaped() && r.vol.sb == v.sb && |r.vol.disk| == |v.disk| && r.vol.disk == Replay(v.disk, r.log)
      && r.vol.fat == FreedSlot(v, i) && r.vol.dir == v.dir[i := BLANK]
  {
  }

  lemma DeleteFinished(v: Volume, w: Volume, name: CString, image: seq<Sector>,
                       start: seq<SectorWrite>, log: seq<SectorWrite>)
    requires Inv(v) && Find(v.dir, name) >= 0
    requires w == FsDelete(v, name).vol.(disk := w.disk) && Planned(start, log, FsDelete(v, name).log)
    requires v.disk == Replay(image, start) && w.disk == Replay(image, log)
    ensures Inv(w)
    ensures forall n: CString :: n != name ==> SameFile(v, w, n)
    ensures log == start + FsDelete(v, name).log ==> w == FsDelete(v, name).vol
  {
    InvIsReadable(v);
    hide Inv, SameFile, ReplacesSlot;
    DeletePlan(v, name);
    var i, r, done := Find(v.dir, name), FsDelete(v, name), log[|start|..];
    assert log == start + done;
    ReplayConcat(image, start, done);
    DeleteReplaces(v, name);
    SameReplacement(v, r.vol, w, i, BLANK, []);
    ReplaceKeepsInv(v, w, i, BLANK, []);
    DeleteKeepsSectors(v, name, done);
    forall n: CString | n != name ensures SameFile(v, w, n) {
      OthersSurvive(v, w, i, BLANK, [], n);
    }
  }

  /** The writes of fs_delete leave the data blocks alone. */
  lemma DeleteKeepsSectors(v: Volume, name: CString, done: seq<SectorWrite>)
    requires v.Shaped() && Find(v.dir, name) >= 0
    requires forall k :: 0 <= k < |done| ==> done[k] in FsDelete(v, name).log
    ensures forall b: u16 :: 1 <= b <= v.sb.dataBlocks ==>
      Replay(v.disk, done)[BlockLba(v.sb, b)] == v.disk[BlockLba(v.sb, b)]
  {
    var after := FsDelete(v, name).vol;
    forall b: u16 | 1 <= b <= v.sb.dataBlocks
      ensures Replay(v.disk, done)[BlockLba(v.sb, b)] == v.disk[BlockLba(v.sb, b)] {
      forall k | 0 <= k < |done| ensures done[k].lba != BlockLba(v.sb, b) {
        FlushAllowed(v, after.fat, after.dir, [], done[k]);
      }
      ReplayMisses(v.disk, done, BlockLba(v.sb, b));
    }
  }

  /** The parts of fs_rename. */
  lemma RenamePlan(v: Volume, oldName: CString, newName: CString)
    requires v.Shaped()
    ensures |v.dir| == FS_DIR_ENTRIES
    ensures var r, i := FsRename(v, oldName, newName), Find(v.dir, oldName);
      if !ValidName(newName) || i < 0 || Find(v.dir, newName) >= 0 then
        r == Outcome(v, [], false) && forall n: CString :: SameFile(v, v, n) && ReadsAlike(v, v, n)
      else
        && r.ok && r.vol.sb == v.sb && r.vol.fat == v.fat
        && r.vol.dir == v.dir[i := v.dir[i].(name := Padded(newName, FS_MAX_NAME + 1))]
        && r.log == DirLog(v.sb, r.vol.dir) && r.vol.disk == Replay(v.disk, r.log)
  {
  }

  lemma RenameFinished(v: Volume, w: Volume, oldName: CString, newName: CString,
                       image: seq<Sector>, start: seq<SectorWrite>, log: seq<SectorWrite>)
    requires Inv(v) && FsRename(v, oldName, newName).ok
    requires w == FsRename(v, oldName, newName).vol.(disk := w.disk)
    requires Planned(start, log, FsRename(v, oldName, newName).log)
    requires v.disk == Replay(image, start) && w.disk == Replay(image, log)
    ensures Inv(w)
    ensures forall n: CString :: n != oldName && n != newName ==> SameFile(v, w, n)
    ensures log == start + FsRename(v, oldName, newName).log ==> w == FsRename(v, oldName, newName).vol
  {
    hide Inv, SameFile, FsRename, SlotOk;
    InvShaped(v);
    RenamePlan(v, oldName, newName);
    var r, done := FsRename(v, oldName, newName), log[|start|..];
    assert log == start + done;
    ReplayConcat(image, start, done);
    RenameKeepsInv(v, oldName, newName);
    InvIgnoresDisk(r.vol, w.disk);
    RenameKeepsSectors(v, r.vol.dir, done);
    forall n: CString | n != oldName && n != newName ensures SameFile(v, w, n) {
      RenameOthers(v, w, oldName, newName, n);
    }
  }

  /** Wherever fs_rename ends, the volume can be read, and other names read as before. */
  lemma RenameReadable(v: Volume, w: Volume, oldName: CString, newName: CString,
                       image: seq<Sector>, start: seq<SectorWrite>, log: seq<SectorWrite>)
    requires Readable(v) && FsRename(v, oldName, newName).ok
    requires w == FsRename(v, oldName, newName).vol.(disk := w.disk)
    requires Planned(start, log, FsRename(v, oldName, newName).log)
    requires v.disk == Replay(image, start) && w.disk == Replay(image, log)
    ensures Readable(w)
    ensures forall n: CString :: n != oldName && n != newName ==> ReadsAlike(v, w, n)
    ensures log == start + FsRename(v, oldName, newName).log ==> w == FsRename(v, oldName, newName).vol
  {
    hide FsRename, ReadsAlike, Find, Replay, Text;
    RenamePlan(v, oldName, newName);
    var i, r, done := Find(v.dir, oldName), FsRename(v, oldName, newName), log[|start|..];
    assert log == start + done;
    ReplayConcat(image, start, done);
    assert forall k :: 0 <= k < |done| ==> done[k] == log[|start| + k];
    RenameKeepsSectors(v, r.vol.dir, done);
    TextOfPadded(newName, FS_MAX_NAME + 1);
    ReadableEntry(v, i);
    hide Readable, Planned;
    EntryKeepsReadable(v, w, i, w.dir[i]);
    forall n: CString | n != oldName && n != newName ensures ReadsAlike(v, w, n) {
      UnreachedKeepsRead(v, w, i, w.dir[i], n);
    }
  }

  lemma ReadableEntry(v: Volume, i: nat)
    requires Readable(v) && i < FS_DIR_ENTRIES && Used(v.dir[i])
    ensures LinksOk(v.fat, v.sb.dataBlocks) && (IsBlock(v.dir[i].first) ==> v.dir[i].first <= v.sb.dataBlocks)
  {
  }

  lemma RenameKeepsSectors(v: Volume, dir: seq<Dirent>, done: seq<SectorWrite>)
    requires v.Shaped() && |dir| == FS_DIR_ENTRIES
    requires forall k :: 0 <= k < |done| ==> done[k] in DirLog(v.sb, dir)
    ensures forall b: u16 :: 1 <= b <= v.sb.dataBlocks ==>
      Replay(v.disk, done)[BlockLba(v.sb, b)] == v.disk[BlockLba(v.sb, b)]
  {
    forall b: u16 | 1 <= b <= v.sb.dataBlocks
      ensures Replay(v.disk, done)[BlockLba(v.sb, b)] == v.disk[BlockLba(v.sb, b)] {
      forall k | 0 <= k < |done| ensures done[k].lba != BlockLba(v.sb, b) {
        FlushAllowed(v, v.fat, dir, [], done[k]);
      }
      ReplayMisses(v.disk, done, BlockLba(v.sb, b));
    }
  }

  lemma RenameOthers(v: Volume, w: Volume, oldName: CString, newName: CString, n: CString)
    requires Inv(v) && FsRename(v, oldName, newName).ok && n != oldName && n != newName
    requires w == FsRename(v, oldName, newName).vol.(disk := w.disk) && |w.disk| == |v.disk|
    requires forall b: u16 :: 1 <= b <= v.sb.dataBlocks ==> w.disk[BlockLba(v.sb, b)] == v.disk[BlockLba(v.sb, b)]
    ensures SameFile(v, w, n)
  {
    RenameKeepsInv(v, oldName, newName);
    TextOfPadded(newName, FS_MAX_NAME + 1);
    FindElsewhere(v, w, Find(v.dir, oldName), n);
    var j := Find(v.dir, n);
    if j >= 0 {
      assert SlotOk(v, j);
      GatherFrame(v.disk, w.disk, v.sb, v.ChainOf(j), v.dir[j].size);
    }
  }

  /** The superblock sector carries the RPFS magic and version. */
  ghost predicate Formatted(disk: seq<Sector>) {
    && FS_START_LBA + 16 < |disk|
    && ParseSuperblock(disk[FS_START_LBA]).magic == FS_MAGIC
    && ParseSuperblock(disk[FS_START_LBA]).version == FS_VERSION
  }

  /** A drive counts as formatted if sector 193, with sixteen more behind it,
      begins with RPFS and the number 1. */
  lemma FormattedIff(disk: seq<Sector>)
    ensures Formatted(disk) <==>
      |disk| > 209 && disk[193][..8] == [0x52, 0x50, 0x46, 0x53, 1, 0, 0, 0]
  {
    if |disk| > 209 {
      var s := disk[193];
      assert s[..8] == s[0..4] + s[4..8];
      MagicIff(s[0..4]);
      VersionIff(s[4..8]);
    }
  }

  lemma MagicIff(b: seq<byte>)
    requires |b| == 4
    ensures Decode32(b) == 0x5346_5052 <==> b == [0x52, 0x50, 0x46, 0x53]
  {
  }

  lemma VersionIff(b: seq<byte>)
    requires |b| == 4
    ensures Decode32(b) == 1 <==> b == [1, 0, 0, 0]
  {
  }

  lemma SomethingFits(v: Volume, name: CString, data: seq<byte>)
    requires v.Shaped() && |data| < 0x1_0000_0000 && ValidName(name) && SlotFor(v.dir, name) >= 0
    ensures |data| == 0 ==> FsWrite(v, name, data).ok
  {
  }

  /** What dropping the old chain of the written slot relies on. */
  lemma ReadyToDrop(v: Volume, name: CString)
    requires Readable(v) && ValidName(name) && SlotFor(v.dir, name) >= 0
    ensures v.Shaped() && v.sb.dataBlocks < |v.fat| && v.sb.dataBlocks <= MAX_BLOCKS && InRange(v.fat)
    ensures SlotFor(v.dir, name) < |v.dir| == FS_DIR_ENTRIES
    ensures var first := EntryFor(v.dir, name).first;
      (IsBlock(first) ==> first < |v.fat|) && Freed(v.fat, first) == DroppedFat(v, name)
  {
    if Find(v.dir, name) < 0 {
      FreedNothing(v.fat, 0);
    }
  }

  /** What the block loop relies on. */
  lemma ReadyToLink(v: Volume, name: CString, data: seq<byte>)
    requires v.Shaped() && |data| < 0x1_0000_0000 && ValidName(name) && SlotFor(v.dir, name) >= 0
    ensures FsWrite(v, name, data).ok <==> |ChainFor(v, name, |data|)| == BlocksFor(|data|)
    ensures var c := ChainFor(v, name, |data|);
      && c == LowestFree(DroppedFat(v, name), 1, v.sb.dataBlocks, BlocksFor(|data|)) && Ascending(c)
      && |DataLog(v.sb, c, data)| == |c| <= BlocksFor(|data|)
      && forall k :: 0 <= k < |c| ==>
           && 1 <= c[k] <= v.sb.dataBlocks && 0 <= BlockLba(v.sb, c[k]) < |v.disk|
           && DataLog(v.sb, c, data)[k] == SectorWrite(BlockLba(v.sb, c[k]), Chunk(data, k))
  {
  }

  /** What rolling back a full chain relies on, and what it restores. */
  lemma ReadyToRollBack(v: Volume, w: Volume, name: CString, len: u32)
    requires Readable(v) && ValidName(name) && SlotFor(v.dir, name) >= 0
    requires Linking(v, w, name, len, |ChainFor(v, name, len)|)
    ensures var i, c := SlotFor(v.dir, name), ChainFor(v, name, len);
      && i < |w.dir| && w.sb.dataBlocks < |w.fat| && w.sb.dataBlocks <= MAX_BLOCKS
      && InRange(w.fat) && IsChain(w.fat, w.sb.dataBlocks, w.dir[i].first, c)
      && Cleared(w.fat, c) == DroppedFat(v, name)
      && w.dir[i := w.dir[i].(first := 0, size := 0)] == v.dir[i := Filled(EntryFor(v.dir, name), [], 0)]
  {
    hide Readable, DroppedFat, LowestFree, Linked, Cleared;
    DroppedLinks(v, name);
    var c := ChainFor(v, name, len);
    assert c[..|c|] == c;
    PrefixIsFree(v, name, len, |c|);
    LinkedKeepsLinks(DroppedFat(v, name), c, v.sb.dataBlocks);
    LinkedShape(DroppedFat(v, name), c);
    UnlinkRestores(DroppedFat(v, name), c);
  }

  lemma ChainStarts(fat: seq<u16>, blocks: nat, first: u16, c: seq<u16>)
    requires blocks < |fat| && IsChain(fat, blocks, first, c)
    ensures IsBlock(first) ==> first < |fat|
  {
  }

  /** How the block loop of fs_write ended. */
  datatype Progress = Complete | DiskFull | DriveError

  /** fs_read's return: -1, or the size with the bytes copied. */
  datatype ReadOutcome = None | Returned(result: ReadResult)

  lemma WalkOn(v: Volume, b: u16, size: nat, n: nat)
    requires size > 0 && IsBlock(b) && b < |v.fat| && 0 <= BlockLba(v.sb, b) < |v.disk| && n == Min(size, 512)
    ensures Walk(v, b, size) == v.disk[BlockLba(v.sb, b)][..n] + Walk(v, v.fat[b], size - n)
  {
  }

  lemma WalkEnds(v: Volume, b: u16, size: nat)
    requires size == 0 || !IsBlock(b)
    ensures Walk(v, b, size) == []
  {
  }

  lemma BlocksOnDrive(v: Volume)
    requires v.Shaped()
    ensures v.sb.dataBlocks < |v.fat|
    ensures forall b: u16 :: 1 <= b <= v.sb.dataBlocks ==> 0 <= BlockLba(v.sb, b) < |v.disk|
  {
  }

  class FileSystem {
    const drive: Drive
    var sb: Superblock
    var fat: array<u16>
    var dir: array<Dirent>
    var mounted: bool

    ghost function Vol(): Volume
      reads this, fat, dir, drive
    {
      Volume(sb, fat[..], dir[..], drive.sectors)
    }

    ghost predicate Valid()
      reads this, fat, dir, drive
    {
      drive.Valid() && (mounted ==> Inv(Vol()))
    }

    /** What reading needs; a volume left by an interrupted operation has it. */
    ghost predicate Usable()
      reads this, fat, dir, drive
    {
      drive.Valid() && (mounted ==> Readable(Vol()))
    }

    constructor (drive: Drive)
      requires drive.Valid()
      ensures Valid() && !mounted && this.drive == drive
    {
      this.drive := drive;
      sb := Superblock(0, 0, 0, 0, 0, 0, 0, 0, 0);
      fat := new u16[0];
      dir := new Dirent[0];
      mounted := false;
    }

    /** find */
    method FindSlot(name: CString) returns (r: int)
      ensures r == Find(dir[..], name)
    {
      var i := 0;
      while i < dir.Length
        invariant 0 <= i <= dir.Length
        invariant Find(dir[..], name) == FindFrom(dir[..], i, name)
      {
        if Used(dir[i]) && Text(dir[i].name) == name {
          return i;
        }
        i := i + 1;
      }
      return -1;
    }

    method UnusedSlot() returns (r: int)
      ensures r == FreeSlotFrom(dir[..], 0)
    {
      var i := 0;
      while i < dir.Length
        invariant 0 <= i <= dir.Length
        invariant FreeSlotFrom(dir[..], 0) == FreeSlotFrom(dir[..], i)
      {
        if !Used(dir[i]) {
          return i;
        }
        i := i + 1;
      }
      return -1;
    }

    /** free_chain: what can be reached from `first` becomes free. */
    method DropChain(first: u16)
      requires InRange(fat[..]) && (IsBlock(first) ==> first < fat.Length)
      modifies fat
      ensures fat[..] == Freed(old(fat[..]), first)
    {
      hide Reachable;
      FreeChain(fat, first);
    }

    /** ata_write of the next planned sector. */
    method WriteNext(lba: nat, data: Sector, ghost plan: seq<SectorWrite>, ghost j: nat, ghost start: seq<SectorWrite>)
      returns (ok: bool)
      requires j < |plan| && plan[j] == SectorWrite(lba, data) && lba < |drive.sectors|
      requires drive.Valid() && drive.log == start + plan[..j]
      modifies drive
      ensures drive.Valid() && |drive.sectors| == old(|drive.sectors|)
      ensures drive.reliable ==> ok
      ensures start <= drive.log <= start + plan
      ensures start + plan[..j] <= drive.log <= start + plan[..j + 1]
      ensures ok ==> drive.log == start + plan[..j + 1]
    {
      assert start + plan[..j + 1] == (start + plan[..j]) + [plan[j]];
      assert start + plan == (start + plan[..j]) + plan[j..];
      assert start + plan == (start + plan[..j + 1]) + plan[j + 1..];
      ok := drive.Write(lba, data);
    }

    /** flush_fat_range, from sector 0 to the sector of entry `last` */
    method FlushFat(last: nat, ghost plan: seq<SectorWrite>) returns (ok: bool)
      requires drive.Valid() && (last / 256 + 1) * 256 <= fat.Length && sb.fatStart + last / 256 < |drive.sectors|
      requires |plan| == last / 256 + 1
      requires forall s :: 0 <= s < |plan| ==> plan[s] == SectorWrite(sb.fatStart + s, FatSector(fat[..], s))
      modifies drive
      ensures drive.Valid() && |drive.sectors| == old(|drive.sectors|)
      ensures drive.reliable ==> ok
      ensures old(drive.log) <= drive.log <= old(drive.log) + plan
      ensures ok ==> drive.log == old(drive.log) + plan
    {
      var s := 0;
      while s <= last / 256
        invariant 0 <= s <= |plan|
        invariant drive.Valid() && |drive.sectors| == old(|drive.sectors|)
        invariant drive.log == old(drive.log) + plan[..s]
      {
        ok := WriteNext(sb.fatStart + s, FatSector(fat[..], s), plan, s, old(drive.log));
        if !ok {
          return;
        }
        s := s + 1;
      }
      assert plan[..s] == plan;
      return true;
    }

    /** flush_dir */
    method FlushDir(ghost plan: seq<SectorWrite>) returns (ok: bool)
      requires drive.Valid() && dir.Length == FS_DIR_ENTRIES && sb.dirStart + 4 <= |drive.sectors|
      requires plan == DirLog(sb, dir[..])
      modifies drive
      ensures drive.Valid() && |drive.sectors| == old(|drive.sectors|)
      ensures drive.reliable ==> ok
      ensures old(drive.log) <= drive.log <= old(drive.log) + plan
      ensures ok ==> drive.log == old(drive.log) + plan
    {
      var s := 0;
      while s < 4
        invariant 0 <= s <= 4
        invariant drive.Valid() && |drive.sectors| == old(|drive.sectors|)
        invariant drive.log == old(drive.log) + plan[..s]
      {
        ok := WriteNext(sb.dirStart + s, DirSector(dir[..], s), plan, s, old(drive.log));
        if !ok {
          return;
        }
        s := s + 1;
      }
      assert plan[..s] == plan;
      return true;
    }

    /** One turn of the block loop of fs_write, up to the data write: mark `b`
        as the end of the chain and hook it behind `prev` or into the entry. */
    method LinkBlock(i: nat, b: u16, prev: u16, ghost dropped: seq<u16>, ghost c: seq<u16>, ghost j: nat)
      requires j < |c| && b == c[j] && prev == (if j == 0 then 0 else c[j - 1])
      requires Ascending(c) && forall k :: 0 <= k < |c| ==> 1 <= c[k] < |dropped|
      requires i < dir.Length && fat[..] == Linked(dropped, c[..j])
      modifies fat, dir
      ensures fat[..] == Linked(dropped, c[..j + 1])
      ensures dir[i] == if j == 0 then old(dir[i]).(first := b) else old(dir[i])
      ensures forall k :: 0 <= k < dir.Length && k != i ==> dir[k] == old(dir[k])
    {
      ghost var was := fat[..];
      fat[b] := FAT_END;
      if prev != 0 {
        fat[prev] := b;
      } else {
        dir[i] := dir[i].(first := b);
      }
      assert c[..j + 1][..j] == c[..j];
      assert fat[..] == (var f := was[b := FAT_END]; if j == 0 then f else f[prev := b]);
    }

    /** The data write of that turn: the next bytes, zero-filled to a sector. */
    method WriteBlock(b: u16, data: seq<byte>, pos: nat,
                      ghost plan: seq<SectorWrite>, ghost j: nat, ghost start: seq<SectorWrite>)
      returns (ok: bool)
      requires j < |plan| && pos == 512 * j < |data| && 0 <= BlockLba(sb, b) < |drive.sectors|
      requires plan[j] == SectorWrite(BlockLba(sb, b), Chunk(data, j))
      requires drive.Valid() && drive.log == start + plan[..j]
      modifies drive
      ensures drive.Valid() && |drive.sectors| == old(|drive.sectors|)
      ensures drive.reliable ==> ok
      ensures start <= drive.log <= start + plan
      ensures start + plan[..j] <= drive.log <= start + plan[..j + 1]
      ensures ok ==> drive.log == start + plan[..j + 1]
    {
      var n := Min(|data| - pos, 512);
      var sect := data[pos..pos + n] + Zeros(512 - n);
      assert sect == Chunk(data, j);
      ok := WriteNext(BlockLba(sb, b), sect, plan, j, start);
    }

    /** The block loop of fs_write: allocate, link and write one block at a time. */
    method LinkBlocks(i: nat, data: seq<byte>, ghost dropped: seq<u16>, ghost c: seq<u16>, ghost plan: seq<SectorWrite>)
      returns (r: Progress, ghost j: nat)
      requires i < dir.Length && dir[i].first == 0
      requires fat[..] == dropped && sb.dataBlocks < |dropped| && sb.dataBlocks <= MAX_BLOCKS
      requires c == LowestFree(dropped, 1, sb.dataBlocks, BlocksFor(|data|)) && |plan| == |c| <= BlocksFor(|data|)
      requires Ascending(c) && forall k :: 0 <= k < |c| ==> 1 <= c[k] <= sb.dataBlocks
      requires forall k :: 0 <= k < |c| ==>
        0 <= BlockLba(sb, c[k]) < |drive.sectors| && plan[k] == SectorWrite(BlockLba(sb, c[k]), Chunk(data, k))
      requires drive.Valid()
      modifies fat, dir, drive
      ensures drive.Valid() && |drive.sectors| == old(|drive.sectors|)
      ensures j <= |c| && fat[..] == Linked(dropped, c[..j])
      ensures dir[i] == old(dir[i]).(first := Head(c[..j]))
      ensures forall k :: 0 <= k < dir.Length && k != i ==> dir[k] == old(dir[k])
      ensures old(drive.log) <= drive.log <= old(drive.log) + plan
      ensures r == DriveError ==> !drive.reliable && 0 < j
      ensures r == DriveError ==> old(drive.log) + plan[..j - 1] <= drive.log <= old(drive.log) + plan[..j]
      ensures r != DriveError ==>
        j == |c| && (r == Complete <==> j == BlocksFor(|data|)) && drive.log == old(drive.log) + plan
    {
      hide LowestFree, Chunk, Replay, IsLowestFree, Linked;
      ghost var start := drive.log;
      LinkNothing(dropped);
      var pos, prev: u16 := 0, 0;
      j := 0;
      assert Linked(dropped, c[..0]) == dropped;
      while pos < |data|
        invariant 0 <= j <= |c| && pos == 512 * j
        invariant drive.Valid() && |drive.sectors| == old(|drive.sectors|)
        invariant fat[..] == Linked(dropped, c[..j])
        invariant dir[i] == old(dir[i]).(first := Head(c[..j]))
        invariant forall k :: 0 <= k < dir.Length && k != i ==> dir[k] == old(dir[k])
        invariant prev == if j == 0 then 0 else c[j - 1]
        invariant drive.log == start + plan[..j]
        decreases |data| - pos
      {
        var b := AllocBlock(fat, sb.dataBlocks);
        NextLowest(dropped, sb.dataBlocks, BlocksFor(|data|), c, j, b);
        if b == 0 {
          assert c[..j] == c && plan[..j] == plan;
          return DiskFull, j;
        }
        LinkBlock(i, b, prev, dropped, c, j);
        var ok := WriteBlock(b, data, pos, plan, j, start);
        if !ok {
          return DriveError, j + 1;
        }
        j, pos, prev := j + 1, pos + 512, b;
      }
      assert c[..j] == c && plan[..j] == plan;
      return Complete, j;
    }

    /** The two flushes that end an operation; fs_write's roll-back ignores an
        error of the first (`keepGoing`). */
    method Flush(keepGoing: bool) returns (ok: bool)
      requires drive.Valid() && Vol().Shaped()
      modifies drive
      ensures drive.Valid() && |drive.sectors| == old(|drive.sectors|)
      ensures drive.reliable ==> ok
      ensures Planned(old(drive.log), drive.log, FatLog(sb, fat[..]) + DirLog(sb, dir[..]))
      ensures ok ==> drive.log == old(drive.log) + (FatLog(sb, fat[..]) + DirLog(sb, dir[..]))
    {
      ghost var f, d := FatLog(sb, fat[..]), DirLog(sb, dir[..]);
      ok := FlushFat(sb.dataBlocks, f);
      if !ok && !keepGoing {
        return;
      }
      ghost var mid := drive.log;
      var dirOk := FlushDir(d);
      ok := ok && dirOk;
      assert mid == old(drive.log) + f ==> mid + d == old(drive.log) + (f + d);
      PlannedParts(old(drive.log), mid, drive.log, f, d);
    }

    /** The slot a write goes to: the one with that name, or a fresh entry. */
    method TakeSlot(name: CString) returns (i: int)
      requires ValidName(name) && dir.Length == FS_DIR_ENTRIES
      modifies dir
      ensures i == SlotFor(old(dir[..]), name)
      ensures dir[..] == if i < 0 then old(dir[..]) else old(dir[..])[i := EntryFor(old(dir[..]), name)]
    {
      i := FindSlot(name);
      if i < 0 {
        i := UnusedSlot();
        if i >= 0 {
          dir[i] := BLANK.(name := Padded(name, FS_MAX_NAME + 1), used := 1);
        }
      }
    }

    /** fs_write, on any volume that can be read. Whatever the drive does, it can
        still be read, files out of reach read as before, and only planned
        sectors are written; when the call returns 0, or the drive is reliable,
        the outcome is exactly that of the specification. Caches that were
        consistent stay so, and then every other file keeps its bytes. */
    method WriteFile(name: CString, data: seq<byte>) returns (ok: bool, ghost how: Ending)
      requires Usable() && |data| < 0x1_0000_0000
      modifies fat, dir, drive
      ensures Usable() && (old(Valid()) ==> Valid())
      ensures !mounted ==> !ok && Vol() == old(Vol()) && drive.log == old(drive.log)
      ensures mounted && (ok || drive.reliable) ==>
        && Vol() == FsWrite(old(Vol()), name, data).vol
        && ok == FsWrite(old(Vol()), name, data).ok
        && drive.log == old(drive.log) + FsWrite(old(Vol()), name, data).log
      ensures mounted && ValidName(name) && SlotFor(old(dir[..]), name) >= 0 ==> Left(old(Vol()), Vol(), name, data)
      ensures mounted ==> Planned(old(drive.log), drive.log, FsWrite(old(Vol()), name, data).log)
      ensures mounted && SlotFor(old(dir[..]), name) >= 0 ==>
        forall n: CString :: OutOfReach(old(Vol()), name, n) ==> ReadsAlike(old(Vol()), Vol(), n)
      ensures mounted && old(Valid()) ==> forall n: CString :: n != name ==> SameFile(old(Vol()), Vol(), n)
      ensures ok == how.Done? && Possible(data, how)
      ensures FileOf(Vol(), name) == Contents(old(FileOf(Vol(), name)), data, how)
      ensures how.Refused? ==> Vol() == old(Vol()) && (mounted && ValidName(name) ==> Find(dir[..], name) < 0)
      ensures how.OutOfSpace? ==> mounted && !FsWrite(old(Vol()), name, data).ok
      ensures drive.reliable ==> !how.FlushFailed? && !how.BlockFailed?
    {
      if !mounted || |name| == 0 || |name| > FS_MAX_NAME {
        return false, Refused;
      }
      ghost var v := Vol();
      var i := TakeSlot(name);
      if i < 0 {
        return false, Refused;
      }
      ok, how := Replace(i, name, data, v);
    }

    /** fs_write from the point where the entry is settled: drop the old chain
        and build the new one. */
    method Rebuild(i: nat, name: CString, data: seq<byte>, ghost v: Volume) returns (r: Progress, ghost j: nat)
      requires Readable(v) && |data| < 0x1_0000_0000 && ValidName(name) && i == SlotFor(v.dir, name)
      requires Vol() == v.(dir := v.dir[i := EntryFor(v.dir, name)]) && drive.Valid()
      modifies fat, dir, drive
      ensures drive.Valid() && j <= |ChainFor(v, name, |data|)| && Linking(v, Vol(), name, |data|, j)
      ensures old(drive.log) <= drive.log <= old(drive.log) + DataLog(sb, ChainFor(v, name, |data|), data)
      ensures r == DriveError ==> !drive.reliable && 0 < j
      ensures var plan := DataLog(sb, ChainFor(v, name, |data|), data);
        r == DriveError ==> old(drive.log) + plan[..j - 1] <= drive.log <= old(drive.log) + plan[..j]
      ensures r != DriveError ==>
        && j == |ChainFor(v, name, |data|)| && (r == Complete <==> FsWrite(v, name, data).ok)
        && drive.log == old(drive.log) + DataLog(sb, ChainFor(v, name, |data|), data)
    {
      hide Readable, FsWrite, InRange, SlotFor, EntryFor, ChainFor, LowestFree, Linked, Cleared, BlockLba, Chunk;
      hide Ascending, BlocksFor, DataLog, DroppedFat, Freed;
      ReadyToDrop(v, name);
      ReadyToLink(v, name, data);
      ghost var c, e := ChainFor(v, name, |data|), EntryFor(v.dir, name);
      assert |dir[..]| == |v.dir|;
      DropChain(dir[i].first);
      dir[i] := dir[i].(first := 0, size := |data|);
      r, j := LinkBlocks(i, data, DroppedFat(v, name), c, DataLog(sb, c, data));
      assert dir[..] == v.dir[i := Filled(e, c[..j], |data|)];
    }

    method Replace(i: nat, name: CString, data: seq<byte>, ghost v: Volume) returns (ok: bool, ghost how: Ending)
      requires Readable(v) && |data| < 0x1_0000_0000 && ValidName(name) && i == SlotFor(v.dir, name) && mounted
      requires Vol() == v.(dir := v.dir[i := EntryFor(v.dir, name)]) && drive.Valid()
      modifies fat, dir, drive
      ensures Usable() && (Inv(v) ==> Valid())
      ensures ok || drive.reliable ==>
        && Vol() == FsWrite(v, name, data).vol
        && ok == FsWrite(v, name, data).ok
        && drive.log == old(drive.log) + FsWrite(v, name, data).log
      ensures Left(v, Vol(), name, data)
      ensures Planned(old(drive.log), drive.log, FsWrite(v, name, data).log)
      ensures forall n: CString :: OutOfReach(v, name, n) ==> ReadsAlike(v, Vol(), n)
      ensures Inv(v) ==> forall n: CString :: n != name ==> SameFile(v, Vol(), n)
      ensures ok == how.Done? && Possible(data, how) && !how.Refused?
      ensures FileOf(Vol(), name) == Contents([], data, how)
      ensures how.OutOfSpace? ==> !FsWrite(v, name, data).ok
      ensures drive.reliable ==> !how.FlushFailed? && !how.BlockFailed?
    {
      hide Inv, Linking, SameFile, Planned, ReplacesSlot, FileOf, DataLog, FatLog, DirLog, Replay, DroppedFat;
      hide Readable, OutOfReach, ReadsAlike;
      ReadyToDrop(v, name);
      ghost var start, c := drive.log, ChainFor(v, name, |data|);
      ghost var plan, after := DataLog(sb, c, data), FsWrite(v, name, data);
      ghost var j;
      var r;
      r, j := Rebuild(i, name, data, v);
      ghost var mid, w := drive.log, Vol();
      if r.DriveError? {
        StoppedPlanned(v, name, data, start, mid);
        StoppedReadable(v, w, name, data, j, drive.image, start, mid);
        if Inv(v) {
          StoppedByError(v, w, name, data, j, drive.image, start, mid);
        }
        how := CutFile(v, w, name, data, j, drive.image, start, mid);
        return false, how;
      }
      if r.DiskFull? {
        ReadyToRollBack(v, w, name, |data|);
        RollBack(i, c);
      }
      BuiltMetadata(v, w, name, data, j);
      assert fat[..] == after.vol.fat && dir[..] == after.vol.dir;
      ok := Flush(r.DiskFull?);
      FinishedLog(v, Vol(), name, data, drive.image, start, mid, drive.log);
      FlushedReadable(v, Vol(), name, data, drive.image, start, drive.log);
      FinishedFile(v, Vol(), name, data, drive.image, start, mid, drive.log);
      if Inv(v) {
        Finished(v, Vol(), name, data, drive.image, start, mid, drive.log);
      }
      SomethingFits(v, name, data);
      how := if r.DiskFull? then OutOfSpace else if ok then Done else FlushFailed;
      ok := ok && !r.DiskFull?;
    }

    /** Disk full: free the partial chain and leave an empty file. */
    method RollBack(i: nat, ghost c: seq<u16>)
      requires i < dir.Length && sb.dataBlocks < fat.Length && sb.dataBlocks <= MAX_BLOCKS
      requires InRange(fat[..]) && IsChain(fat[..], sb.dataBlocks, dir[i].first, c)
      modifies fat, dir
      ensures fat[..] == Cleared(old(fat[..]), c)
      ensures dir[..] == old(dir[..])[i := old(dir[i]).(first := 0, size := 0)]
    {
      FreedChain(fat[..], sb.dataBlocks, dir[i].first, c);
      ChainStarts(fat[..], sb.dataBlocks, dir[i].first, c);
      DropChain(dir[i].first);
      dir[i] := dir[i].(first := 0, size := 0);
    }

    /** The copying loop of fs_read: up to `size` bytes along the links from
        `first`; an error leaves a first part of them copied. */
    method ReadChain(first: u16, size: nat) returns (ok: bool, out: seq<byte>)
      requires Usable() && mounted && (IsBlock(first) ==> first <= sb.dataBlocks)
      ensures |out| <= size && out <= Walk(Vol(), first, size)
      ensures ok ==> out == Walk(Vol(), first, size)
      ensures drive.reliable || size == 0 ==> ok
    {
      hide Walk, BlockLba, Replay;
      ghost var v := Vol();
      BlocksOnDrive(v);
      var remaining: nat, b: u16 := size, first;
      out := [];
      while remaining > 0 && IsBlock(b)
        invariant IsBlock(b) ==> b <= sb.dataBlocks
        invariant |out| + remaining == size
        invariant out + Walk(v, b, remaining) == Walk(v, first, size)
        decreases remaining
      {
        var sect;
        ok, sect := drive.Read(BlockLba(sb, b));
        if !ok {
          return;
        }
        var n := Min(remaining, 512);
        WalkOn(v, b, remaining, n);
        out, remaining, b := out + sect[..n], remaining - n, fat[b];
      }
      WalkEnds(v, b, remaining);
      ok := true;
    }

    /** fs_read: nothing changes, and what a call that returns a size has copied
        is the requested prefix of the file. `None` stands for -1; an error has
        copied a first part. */
    method ReadFile(name: CString, maxlen: nat) returns (r: ReadOutcome, copied: seq<byte>)
      requires Usable()
      ensures |copied| <= maxlen
      ensures r.Returned? ==>
        mounted && r.result == FsRead(Vol(), name, maxlen) && r.result.Found? && copied == r.result.bytes
      ensures r.None? <== !mounted || FsRead(Vol(), name, maxlen).NotFound?
      ensures mounted && FsRead(Vol(), name, maxlen).Found? ==> copied <= FsRead(Vol(), name, maxlen).bytes
      ensures r.None? && (!mounted || FsRead(Vol(), name, maxlen).NotFound?) ==> copied == []
      ensures mounted && FsRead(Vol(), name, maxlen).Found? && (drive.reliable || maxlen == 0) ==> r.Returned?
    {
      if !mounted {
        return None, [];
      }
      var i := FindSlot(name);
      if i < 0 {
        return None, [];
      }
      var ok;
      ok, copied := ReadChain(dir[i].first, Min(dir[i].size, maxlen));
      r := if ok then Returned(Found(dir[i].size, copied)) else None;
    }

    /** fs_free_bytes counts the free blocks; on a consistent volume they and the
        chains' blocks make up the whole data region. */
    method FreeBytes() returns (bytes: nat)
      requires Usable()
      ensures !mounted ==> bytes == 0
      ensures mounted ==> bytes == 512 * FreeBlocks(Vol())
      ensures mounted ==> bytes + 512 * ChainTotal(Vol(), |Vol().dir|) == 512 * Capacity(Vol())
      ensures mounted && Inv(Vol()) ==> (Capacity(Vol()) == sb.dataBlocks <==> Tight(Vol()))
    {
      if !mounted {
        return 0;
      }
      if Inv(Vol()) {
        CapacityFullIff(Vol());
      }
      hide Inv;
      var free, b := 0, 1;
      while b <= sb.dataBlocks
        invariant 1 <= b <= sb.dataBlocks + 1
        invariant free + FreeCount(fat[..], b, sb.dataBlocks) == FreeBlocks(Vol())
        decreases sb.dataBlocks + 1 - b
      {
        if fat[b] == FAT_FREE {
          free := free + 1;
        }
        b := b + 1;
      }
      bytes := free * 512;
    }

    /** fs_delete, with the same guarantees. */
    method DeleteFile(name: CString) returns (ok: bool)
      requires Usable()
      modifies fat, dir, drive
      ensures Usable() && (old(Valid()) ==> Valid())
      ensures !mounted ==> !ok && Vol() == old(Vol()) && drive.log == old(drive.log)
      ensures mounted ==> Vol() == FsDelete(old(Vol()), name).vol.(disk := drive.sectors)
      ensures mounted && (ok || drive.reliable) ==>
        && Vol() == FsDelete(old(Vol()), name).vol
        && ok == FsDelete(old(Vol()), name).ok
        && drive.log == old(drive.log) + FsDelete(old(Vol()), name).log
      ensures mounted ==> Planned(old(drive.log), drive.log, FsDelete(old(Vol()), name).log)
      ensures mounted ==> forall n: CString ::
        n != name && (Find(old(dir[..]), name) >= 0 ==> Apart(old(Vol()), Find(old(dir[..]), name), n)) ==>
        ReadsAlike(old(Vol()), Vol(), n)
      ensures mounted && old(Valid()) ==> forall n: CString :: n != name ==> SameFile(old(Vol()), Vol(), n)
    {
      hide Readable, Inv, InRange, SameFile, FsDelete, ReadsAlike, Apart, Freed;
      if !mounted {
        return false;
      }
      ghost var v, start := Vol(), drive.log;
      var i := FindSlot(name);
      DeletePlan(v, name);
      if i < 0 {
        return false;
      }
      DropChain(dir[i].first);
      dir[i] := BLANK;
      assert dir[..] == v.dir[i := BLANK];
      ok := Flush(false);
      DeleteReadable(v, Vol(), name, drive.image, start, drive.log);
      if Inv(v) {
        DeleteFinished(v, Vol(), name, drive.image, start, drive.log);
      }
    }

    /** fs_rename, with the same guarantees. */
    method RenameFile(oldName: CString, newName: CString) returns (ok: bool)
      requires Usable()
      modifies dir, drive
      ensures Usable() && (old(Valid()) ==> Valid())
      ensures !mounted ==> !ok && Vol() == old(Vol()) && drive.log == old(drive.log)
      ensures mounted && (ok || drive.reliable) ==>
        && Vol() == FsRename(old(Vol()), oldName, newName).vol
        && ok == FsRename(old(Vol()), oldName, newName).ok
        && drive.log == old(drive.log) + FsRename(old(Vol()), oldName, newName).log
      ensures mounted ==> Planned(old(drive.log), drive.log, FsRename(old(Vol()), oldName, newName).log)
      ensures mounted ==> forall n: CString :: n != oldName && n != newName ==> ReadsAlike(old(Vol()), Vol(), n)
      ensures mounted && old(Valid()) ==>
        forall n: CString :: n != oldName && n != newName ==> SameFile(old(Vol()), Vol(), n)
    {
      hide Inv, SameFile, FsRename, ReadsAlike;
      if !mounted {
        return false;
      }
      ghost var v, start := Vol(), drive.log;
      RenamePlan(v, oldName, newName);
      if |newName| == 0 || |newName| > FS_MAX_NAME {
        return false;
      }
      var i := FindSlot(oldName);
      var taken := FindSlot(newName);
      if i < 0 || taken >= 0 {
        return false;
      }
      dir[i] := dir[i].(name := Padded(newName, FS_MAX_NAME + 1));
      assert dir[..] == FsRename(v, oldName, newName).vol.dir;
      ok := FlushDir(DirLog(sb, dir[..]));
      PlannedPrefixLog(start, drive.log, DirLog(sb, dir[..]));
      RenameReadable(v, Vol(), oldName, newName, drive.image, start, drive.log);
      if Inv(v) {
        RenameFinished(v, Vol(), oldName, newName, drive.image, start, drive.log);
      }
    }

    /** fs_format: an empty FAT, an empty directory, then the superblock. */
    method Format() returns (ok: bool)
      requires drive.Valid() && FS_START_LBA + 16 < |drive.sectors| <= MAX_SECTORS
      requires fat.Length == Geometry(|drive.sectors|).fatSectors * 256 && dir.Length == FS_DIR_ENTRIES
      modifies `sb, fat, dir, drive
      ensures drive.Valid()
      ensures drive.reliable ==> ok
      ensures ok ==> Vol() == FormatVolume(old(drive.sectors)) && drive.log == old(drive.log) + FormatLog(sb)
      ensures sb.dataStart + sb.dataBlocks == |drive.sectors| || sb.dataBlocks == 0xFFFE
    {
      hide FatSector, DirSector, SuperblockSector, Geometry, Replay;
      ghost var disk, start := drive.sectors, drive.log;
      GeometryWellPlaced(|disk|);
      sb := Geometry(|drive.sectors|);
      forall x | 0 <= x < fat.Length {
        fat[x] := FAT_FREE;
      }
      forall x | 0 <= x < dir.Length {
        dir[x] := BLANK;
      }
      assert fat[..] == EmptyFat(sb) && dir[..] == EmptyDir();
      ghost var f, d, last :=
        EmptyFatLog(sb), DirLog(sb, EmptyDir()), [SectorWrite(FS_START_LBA, SuperblockSector(sb))];
      ok := FlushFat(sb.fsSectors - 1, f);
      if !ok {
        return;
      }
      ok := FlushDir(d);
      if !ok {
        return;
      }
      ok := WriteNext(FS_START_LBA, SuperblockSector(sb), last, 0, drive.log);
      if ok {
        assert last[..1] == last && start + f + d + last == start + FormatLog(sb);
        ReplayConcat(drive.image, start, FormatLog(sb));
      }
    }

    /** Loads sector `s` of the FAT into the cache. */
    method LoadFat() returns (ok: bool)
      requires WellPlaced(sb, |drive.sectors|) && fat.Length == sb.fatSectors * 256
      modifies fat
      ensures ok ==> fat[..] == FatOf(drive.sectors, sb.fatStart, sb.fatSectors)
      ensures drive.reliable ==> ok
    {
      hide Decode16;
      ghost var want := FatOf(drive.sectors, sb.fatStart, sb.fatSectors);
      var s := 0;
      while s < sb.fatSectors
        invariant 0 <= s <= sb.fatSectors
        invariant forall x :: 0 <= x < s * 256 ==> fat[x] == want[x]
      {
        var sect;
        ok, sect := drive.Read(sb.fatStart + s);
        if !ok {
          return;
        }
        forall j | 0 <= j < 256 {
          fat[s * 256 + j] := Decode16(sect[j * 2..j * 2 + 2]);
        }
        assert forall x :: s * 256 <= x < (s + 1) * 256 ==> fat[s * 256 + (x - s * 256)] == want[x];
        s := s + 1;
      }
      ok := true;
    }

    method LoadDir() returns (ok: bool)
      requires sb.dirStart + 4 <= |drive.sectors| && dir.Length == FS_DIR_ENTRIES
      modifies dir
      ensures ok ==> dir[..] == DirOf(drive.sectors, sb.dirStart)
      ensures drive.reliable ==> ok
    {
      hide ParseEntry;
      ghost var want := DirOf(drive.sectors, sb.dirStart);
      var s := 0;
      while s < 4
        invariant 0 <= s <= 4
        invariant forall x :: 0 <= x < s * 16 ==> dir[x] == want[x]
      {
        var sect;
        ok, sect := drive.Read(sb.dirStart + s);
        if !ok {
          return;
        }
        forall j | 0 <= j < 16 {
          dir[s * 16 + j] := ParseEntry(sect[j * 32..j * 32 + 32]);
        }
        assert forall x :: s * 16 <= x < (s + 1) * 16 ==> dir[s * 16 + (x - s * 16)] == want[x];
        s := s + 1;
      }
      ok := true;
    }

    /** fs_mount. `present` is the outcome of identifying the drive and
        `memory` that of allocating the caches. */
    method Mount(present: bool, memory: bool) returns (ok: bool)
      requires drive.Valid() && !mounted && |drive.sectors| <= MAX_SECTORS
      requires Formatted(drive.sectors) ==> WellPlaced(ParseSuperblock(drive.sectors[FS_START_LBA]), |drive.sectors|)
      modifies this, drive
      ensures drive.Valid() && mounted == ok
      ensures Formatted(old(drive.sectors)) && Readable(MountImage(old(drive.sectors))) ==> Usable()
      ensures Formatted(old(drive.sectors)) ==> Inv(MountImage(old(drive.sectors))) ==> Valid()
      ensures !Formatted(old(drive.sectors)) ==> Valid()
      ensures Formatted(old(drive.sectors)) ==> drive.sectors == old(drive.sectors) && drive.log == old(drive.log)
      ensures ok ==> FS_START_LBA + 16 < |old(drive.sectors)|
      ensures ok && old(Formatted(drive.sectors)) ==>
        Vol() == old(MountImage(drive.sectors)) && drive.log == old(drive.log)
      ensures ok && !old(Formatted(drive.sectors)) ==>
        Vol() == FormatVolume(old(drive.sectors)) && drive.log == old(drive.log) + FormatLog(sb)
      ensures drive.reliable && present && memory && FS_START_LBA + 16 < |drive.sectors| ==> ok
    {
      hide Inv, ParseSuperblock, FatOf, DirOf, FormatLog, Replay;
      if !present || |drive.sectors| <= FS_START_LBA + 16 {
        return false;
      }
      var sect;
      ok, sect := drive.Read(FS_START_LBA);
      if !ok {
        return;
      }
      sb := ParseSuperblock(sect);
      var unformatted := sb.magic != FS_MAGIC || sb.version != FS_VERSION;
      if !memory {
        return false;
      }
      if unformatted {
        sb := Geometry(|drive.sectors|);
      }
      fat := new u16[sb.fatSectors * 256];
      dir := new Dirent[FS_DIR_ENTRIES];
      if unformatted {
        FormatIsEmpty(drive.sectors);
        ok := Format();
      } else {
        ok := LoadFat();
        if ok {
          ok := LoadDir();
        }
      }
      mounted := ok;
    }
  }
}
