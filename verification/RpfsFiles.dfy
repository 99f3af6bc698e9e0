/** What the volume stores: each operation refines an update of a map from
    names to byte strings, and a synced platter stays synced. */
module RpfsFiles {
  import opened Bytes
  import opened Drives
  import opened RpfsLayout
  import opened RpfsFat
  import opened RpfsVolume
  import opened RpfsOps

  // --- what a write leaves on the platter -----------------------------------

  lemma DataLanded(disk: seq<Sector>, sb: Superblock, c: seq<u16>, data: seq<byte>, k: nat)
    requires WellPlaced(sb, |disk|) && k < |c| <= BlocksFor(|data|)
    requires Ascending(c) && forall k :: 0 <= k < |c| ==> 1 <= c[k] <= sb.dataBlocks
    ensures Replay(disk, DataLog(sb, c, data))[BlockLba(sb, c[k])] == Chunk(data, k)
  {
    var log := DataLog(sb, c, data);
    forall m | k < m < |log| ensures log[m].lba != BlockLba(sb, c[k]) {
      assert c[k] < c[m];
    }
    ReplayHits(disk, log, k, BlockLba(sb, c[k]), Chunk(data, k));
  }

  /** The data sectors do not touch sectors outside the chain. */
  lemma DataElsewhere(disk: seq<Sector>, sb: Superblock, c: seq<u16>, data: seq<byte>, l: nat)
    requires WellPlaced(sb, |disk|) && |c| <= BlocksFor(|data|) && l < |disk|
    requires forall k :: 0 <= k < |c| ==> 1 <= c[k] <= sb.dataBlocks && BlockLba(sb, c[k]) != l
    ensures Replay(disk, DataLog(sb, c, data))[l] == disk[l]
  {
    ReplayMisses(disk, DataLog(sb, c, data), l);
  }

  lemma DataKeepsMetadata(disk: seq<Sector>, sb: Superblock, c: seq<u16>, data: seq<byte>)
    requires WellPlaced(sb, |disk|) && |c| <= BlocksFor(|data|)
    requires forall k :: 0 <= k < |c| ==> 1 <= c[k] <= sb.dataBlocks
    ensures forall l :: 0 <= l < sb.dataStart ==> Replay(disk, DataLog(sb, c, data))[l] == disk[l]
  {
    forall l | 0 <= l < sb.dataStart ensures Replay(disk, DataLog(sb, c, data))[l] == disk[l] {
      DataElsewhere(disk, sb, c, data, l);
    }
  }

  /** An accepted write changes entries 1..data_blocks of the FAT only. */
  lemma TailUntouched(v: Volume, w: Volume, i: nat, e: Dirent, c: seq<u16>)
    requires Inv(v) && i < FS_DIR_ENTRIES && ReplacesSlot(v, w, i, e, c)
    ensures forall x :: v.sb.dataBlocks < x < |v.fat| ==> w.fat[x] == v.fat[x]
  {
    ReplacedFat(v, w, i, e, c);
    assert SlotOk(v, i);
  }

  /** The platter after fs_write: metadata flushed on top of the data sectors. */
  lemma WrittenDisk(v: Volume, name: CString, data: seq<byte>)
    requires v.Shaped() && |data| < 0x1_0000_0000 && ValidName(name) && SlotFor(v.dir, name) >= 0
    ensures var w, c := FsWrite(v, name, data).vol, ChainFor(v, name, |data|);
      && w.disk == Replay(Replay(v.disk, DataLog(v.sb, c, data)), FatLog(v.sb, w.fat) + DirLog(v.sb, w.dir))
      && forall l :: v.sb.dataStart <= l < |v.disk| ==> w.disk[l] == Replay(v.disk, DataLog(v.sb, c, data))[l]
  {
    var w, c := FsWrite(v, name, data).vol, ChainFor(v, name, |data|);
    var a, f, d := DataLog(v.sb, c, data), FatLog(v.sb, w.fat), DirLog(v.sb, w.dir);
    assert a + f + d == a + (f + d);
    ReplayConcat(v.disk, a, f + d);
    FlushedElsewhere(v.sb, Replay(v.disk, a), w.fat, w.dir);
  }

  /** A block the write does not take keeps its sector. */
  lemma WriteKeepsBlock(v: Volume, name: CString, data: seq<byte>, b: u16)
    requires v.Shaped() && |data| < 0x1_0000_0000 && ValidName(name) && SlotFor(v.dir, name) >= 0
    requires 1 <= b <= v.sb.dataBlocks && b !in ChainFor(v, name, |data|)
    ensures FsWrite(v, name, data).vol.disk[BlockLba(v.sb, b)] == v.disk[BlockLba(v.sb, b)]
  {
    hide FsWrite, ChainFor, DataLog, Replay, FatLog, DirLog;
    WrittenDisk(v, name, data);
    DataElsewhere(v.disk, v.sb, ChainFor(v, name, |data|), data, BlockLba(v.sb, b));
  }

  lemma WriteKeepsSynced(v: Volume, name: CString, data: seq<byte>)
    requires Inv(v) && Synced(v) && |data| < 0x1_0000_0000
    ensures FsWrite(v, name, data).vol.Shaped() && Synced(FsWrite(v, name, data).vol)
  {
    if ValidName(name) && SlotFor(v.dir, name) >= 0 {
      var r, c, i := FsWrite(v, name, data), ChainFor(v, name, |data|), SlotFor(v.dir, name);
      WrittenDisk(v, name, data);
      DataKeepsMetadata(v.disk, v.sb, c, data);
      if r.ok {
        WriteReplaces(v, name, data);
        TailUntouched(v, r.vol, i, Filled(EntryFor(v.dir, name), c, |data|), c);
      } else {
        FullWriteReplaces(v, name, data);
        TailUntouched(v, r.vol, i, Filled(EntryFor(v.dir, name), [], 0), []);
      }
      FlushSyncs(v, Replay(v.disk, DataLog(v.sb, c, data)), r.vol.fat, r.vol.dir);
    }
  }

  lemma DeleteKeepsSynced(v: Volume, name: CString)
    requires Inv(v) && Synced(v)
    ensures FsDelete(v, name).vol.Shaped() && Synced(FsDelete(v, name).vol)
  {
    if Find(v.dir, name) >= 0 {
      var w := FsDelete(v, name).vol;
      DeleteReplaces(v, name);
      TailUntouched(v, w, Find(v.dir, name), BLANK, []);
      FlushSyncs(v, v.disk, w.fat, w.dir);
    }
  }

  lemma RenamedDisk(v: Volume, oldName: CString, newName: CString)
    requires v.Shaped() && FsRename(v, oldName, newName).ok
    ensures var w := FsRename(v, oldName, newName).vol;
      && w.sb == v.sb && w.fat == v.fat && |w.dir| == |v.dir| && |w.disk| == |v.disk|
      && (forall s :: 0 <= s < 4 ==> w.disk[v.sb.dirStart + s] == DirSector(w.dir, s))
      && (forall l :: 0 <= l < |v.disk| && !(v.sb.dirStart <= l < v.sb.dataStart) ==> w.disk[l] == v.disk[l])
  {
    hide DirSector, Replay, Padded, Find;
    var w := FsRename(v, oldName, newName).vol;
    var log := DirLog(v.sb, w.dir);
    ReplayConsecutive(v.disk, log, v.sb.dirStart);
    assert forall s :: 0 <= s < 4 ==> log[s].data == DirSector(w.dir, s);
  }

  lemma RenameKeepsSynced(v: Volume, oldName: CString, newName: CString)
    requires Inv(v) && Synced(v)
    ensures FsRename(v, oldName, newName).vol.Shaped() && Synced(FsRename(v, oldName, newName).vol)
  {
    if FsRename(v, oldName, newName).ok {
      RenamedDisk(v, oldName, newName);
      hide FsRename, Inv, FatSector, DirSector, SuperblockSector;
    }
  }

  // --- contents -------------------------------------------------------------

  lemma {:induction false} GatherWritten(disk: seq<Sector>, sb: Superblock, c: seq<u16>, data: seq<byte>, k: nat)
    requires k <= |c| == BlocksFor(|data|)
    requires forall m :: k <= m < |c| ==> 0 <= BlockLba(sb, c[m]) < |disk| && disk[BlockLba(sb, c[m])] == Chunk(data, m)
    ensures k * 512 >= |data| || Gather(disk, sb, c[k..], |data| - k * 512) == data[k * 512..]
    decreases |c| - k
  {
    if k * 512 < |data| {
      var n := Min(|data| - k * 512, 512);
      assert c[k..][0] == c[k] && c[k..][1..] == c[k + 1..];
      assert Chunk(data, k)[..n] == data[k * 512..k * 512 + n];
      GatherWritten(disk, sb, c, data, k + 1);
      assert data[k * 512..] == data[k * 512..k * 512 + n] + data[k * 512 + n..];
    }
  }

  lemma GatherAll(disk: seq<Sector>, sb: Superblock, c: seq<u16>, data: seq<byte>)
    requires |c| == BlocksFor(|data|)
    requires forall k :: 0 <= k < |c| ==> 0 <= BlockLba(sb, c[k]) < |disk| && disk[BlockLba(sb, c[k])] == Chunk(data, k)
    ensures Gather(disk, sb, c, |data|) == data
  {
    GatherWritten(disk, sb, c, data, 0);
    assert c[0..] == c && data[0..] == data;
  }

  /** Files outside the written slot keep their bytes when their blocks are not written. */
  lemma OthersKeepContent(v: Volume, w: Volume, i: nat, e: Dirent, c: seq<u16>, j: nat)
    requires Inv(v) && i < FS_DIR_ENTRIES && ReplacesSlot(v, w, i, e, c)
    requires |w.disk| == |v.disk|
    requires forall b: u16 :: 1 <= b <= v.sb.dataBlocks && v.fat[b] != FAT_FREE && b !in v.ChainOf(i) ==>
      w.disk[BlockLba(v.sb, b)] == v.disk[BlockLba(v.sb, b)]
    requires j < FS_DIR_ENTRIES && j != i
    ensures w.ContentOf(j) == v.ContentOf(j)
  {
    OthersKeepChain(v, w, i, e, c, j);
    assert SlotOk(v, j);
    var d := v.ChainOf(j);
    forall k | 0 <= k < |d|
      ensures w.disk[BlockLba(v.sb, d[k])] == v.disk[BlockLba(v.sb, d[k])]
    {
      assert d[k] in d && v.fat[d[k]] == Next(d, k);
      OthersKeepBlocks(v, w, i, e, c, j, d[k]);
    }
    GatherFrame(v.disk, w.disk, v.sb, d, v.dir[j].size);
  }

  // --- the map of files -----------------------------------------------------

  /** The files of the first `n` slots. */
  ghost function FilesUpTo(v: Volume, n: nat): map<CString, seq<byte>>
    requires n <= |v.dir|
  {
    if n == 0 then map[]
    else
      var rest := FilesUpTo(v, n - 1);
      if Used(v.dir[n - 1]) then rest[Text(v.dir[n - 1].name) := v.ContentOf(n - 1)] else rest
  }

  /** The map from names to byte strings that the volume stands for. */
  ghost function Files(v: Volume): map<CString, seq<byte>> {
    FilesUpTo(v, |v.dir|)
  }

  lemma FindUsed(v: Volume, i: nat)
    requires NamesOk(v) && i < |v.dir| && Used(v.dir[i])
    ensures Find(v.dir, Text(v.dir[i].name)) == i
  {
  }

  lemma {:induction false} NamesUpTo(v: Volume, n: nat, name: CString)
    requires NamesOk(v) && n <= |v.dir|
    ensures name in FilesUpTo(v, n) <==> 0 <= Find(v.dir, name) < n
    ensures name in FilesUpTo(v, n) ==> FilesUpTo(v, n)[name] == v.ContentOf(Find(v.dir, name))
    decreases n
  {
    if n > 0 {
      NamesUpTo(v, n - 1, name);
      if Used(v.dir[n - 1]) {
        FindUsed(v, n - 1);
      }
    }
  }

  /** A name is in the map exactly when lookup finds it, bound to that slot's contents. */
  lemma NamesAreFound(v: Volume, name: CString)
    requires NamesOk(v)
    ensures name in Files(v) <==> Find(v.dir, name) >= 0
    ensures name in Files(v) ==> Files(v)[name] == v.ContentOf(Find(v.dir, name))
  {
    NamesUpTo(v, |v.dir|, name);
  }

  /** Two directories that differ in one slot find every other name in the same place. */
  lemma FindElsewhere(v: Volume, w: Volume, i: nat, n: CString)
    requires NamesOk(v) && NamesOk(w) && i < |v.dir| == |w.dir|
    requires w.dir == v.dir[i := w.dir[i]]
    requires Used(v.dir[i]) ==> Text(v.dir[i].name) != n
    requires Used(w.dir[i]) ==> Text(w.dir[i].name) != n
    ensures Find(w.dir, n) == Find(v.dir, n)
  {
    var a, b := Find(v.dir, n), Find(w.dir, n);
    if a >= 0 {
      assert w.dir[a] == v.dir[a];
    }
    if b >= 0 {
      assert v.dir[b] == w.dir[b];
    }
  }

  lemma SameMap<K, V>(a: map<K, V>, b: map<K, V>)
    requires forall n :: (n in a <==> n in b) && (n in b ==> a[n] == b[n])
    ensures a == b
  {
  }

  /** The map after a slot's entry `former` gave way to `e` with these contents. */
  ghost function Rebound(files: map<CString, seq<byte>>, former: Dirent, e: Dirent, content: seq<byte>)
    : map<CString, seq<byte>>
  {
    var kept := if Used(former) then files - {Text(former.name)} else files;
    if Used(e) then kept[Text(e.name) := content] else kept
  }

  /** Where a name is found after one slot changed. */
  lemma FindAfterSlot(v: Volume, w: Volume, i: nat, n: CString)
    requires NamesOk(v) && NamesOk(w) && i < |v.dir| == |w.dir| && w.dir == v.dir[i := w.dir[i]]
    ensures Find(w.dir, n) ==
      if Used(w.dir[i]) && Text(w.dir[i].name) == n then i
      else if Used(v.dir[i]) && Text(v.dir[i].name) == n then -1
      else Find(v.dir, n)
    ensures Used(v.dir[i]) ==> (Text(v.dir[i].name) == n <==> Find(v.dir, n) == i)
    ensures !Used(v.dir[i]) ==> Find(v.dir, n) != i
  {
    if Used(w.dir[i]) && n == Text(w.dir[i].name) {
      FindUsed(w, i);
    } else if !(Used(v.dir[i]) && n == Text(v.dir[i].name)) {
      FindElsewhere(v, w, i, n);
    }
  }

  /** What one name stands for after one slot changed. */
  lemma NameAfterSlot(v: Volume, w: Volume, i: nat, n: CString)
    requires NamesOk(v) && NamesOk(w) && i < |v.dir| == |w.dir| && w.dir == v.dir[i := w.dir[i]]
    requires forall j :: 0 <= j < |v.dir| && j != i ==> w.ContentOf(j) == v.ContentOf(j)
    ensures var want := Rebound(Files(v), v.dir[i], w.dir[i], w.ContentOf(i));
      (n in Files(w) <==> n in want) && (n in want ==> Files(w)[n] == want[n])
  {
    NamesAreFound(v, n);
    NamesAreFound(w, n);
    FindAfterSlot(v, w, i, n);
  }

  /** Changing one slot removes its old name from the map and enters its new one. */
  lemma SlotRefines(v: Volume, w: Volume, i: nat)
    requires NamesOk(v) && NamesOk(w) && i < |v.dir| == |w.dir| && w.dir == v.dir[i := w.dir[i]]
    requires forall j :: 0 <= j < |v.dir| && j != i ==> w.ContentOf(j) == v.ContentOf(j)
    ensures Files(w) == Rebound(Files(v), v.dir[i], w.dir[i], w.ContentOf(i))
  {
    var want := Rebound(Files(v), v.dir[i], w.dir[i], w.ContentOf(i));
    forall n: CString ensures (n in Files(w) <==> n in want) && (n in want ==> Files(w)[n] == want[n]) {
      NameAfterSlot(v, w, i, n);
    }
    SameMap(Files(w), want);
  }

  /** The sectors of other files survive the write. */
  lemma WriteKeepsOthers(v: Volume, name: CString, data: seq<byte>)
    requires Inv(v) && |data| < 0x1_0000_0000 && ValidName(name) && SlotFor(v.dir, name) >= 0
    ensures forall b: u16 ::
      1 <= b <= v.sb.dataBlocks && v.fat[b] != FAT_FREE && b !in v.ChainOf(SlotFor(v.dir, name)) ==>
      FsWrite(v, name, data).vol.disk[BlockLba(v.sb, b)] == v.disk[BlockLba(v.sb, b)]
  {
    forall b: u16 | 1 <= b <= v.sb.dataBlocks && v.fat[b] != FAT_FREE && b !in v.ChainOf(SlotFor(v.dir, name))
      ensures FsWrite(v, name, data).vol.disk[BlockLba(v.sb, b)] == v.disk[BlockLba(v.sb, b)]
    {
      LowestFreeShape(DroppedFat(v, name), 1, v.sb.dataBlocks, BlocksFor(|data|));
      WriteKeepsBlock(v, name, data, b);
    }
  }

  /** Block `k` of the data is on block `k` of the chain. */
  lemma WriteLands(v: Volume, name: CString, data: seq<byte>, k: nat)
    requires v.Shaped() && |data| < 0x1_0000_0000 && ValidName(name) && SlotFor(v.dir, name) >= 0
    requires k < |ChainFor(v, name, |data|)|
    ensures var w, b := FsWrite(v, name, data).vol, ChainFor(v, name, |data|)[k];
            0 <= BlockLba(v.sb, b) < |w.disk| && w.disk[BlockLba(v.sb, b)] == Chunk(data, k)
  {
    WrittenDisk(v, name, data);
    DataLanded(v.disk, v.sb, ChainFor(v, name, |data|), data, k);
  }

  lemma InvShaped(v: Volume)
    requires Inv(v)
    ensures v.Shaped() && NamesOk(v)
    ensures forall i :: 0 <= i < FS_DIR_ENTRIES ==> SlotOk(v, i)
  {
  }

  lemma OkChain(v: Volume, name: CString, data: seq<byte>)
    requires v.Shaped() && |data| < 0x1_0000_0000 && FsWrite(v, name, data).ok
    ensures ValidName(name) && SlotFor(v.dir, name) >= 0 && |ChainFor(v, name, |data|)| == BlocksFor(|data|)
  {
  }

  /** The written chain reads back as the data. */
  lemma WrittenContent(v: Volume, name: CString, data: seq<byte>)
    requires Inv(v) && |data| < 0x1_0000_0000 && FsWrite(v, name, data).ok
    ensures Gather(FsWrite(v, name, data).vol.disk, v.sb, ChainFor(v, name, |data|), |data|) == data
  {
    hide FsWrite, ChainFor, Inv, Chunk, BlockLba, Gather;
    InvShaped(v);
    OkChain(v, name, data);
    var disk, c := FsWrite(v, name, data).vol.disk, ChainFor(v, name, |data|);
    forall k | 0 <= k < |c|
      ensures 0 <= BlockLba(v.sb, c[k]) < |disk| && disk[BlockLba(v.sb, c[k])] == Chunk(data, k)
    {
      WriteLands(v, name, data, k);
    }
    GatherAll(disk, v.sb, c, data);
  }

  /** What fs_write does to the directory and to the contents of every slot. */
  lemma WriteContents(v: Volume, name: CString, data: seq<byte>)
    requires Inv(v) && |data| < 0x1_0000_0000 && ValidName(name) && SlotFor(v.dir, name) >= 0
    ensures var r, i := FsWrite(v, name, data), SlotFor(v.dir, name);
      && NamesOk(r.vol) && |r.vol.dir| == FS_DIR_ENTRIES
      && Used(r.vol.dir[i]) && Text(r.vol.dir[i].name) == name && r.vol.dir == v.dir[i := r.vol.dir[i]]
      && r.vol.ContentOf(i) == (if r.ok then data else [])
      && forall j :: 0 <= j < FS_DIR_ENTRIES && j != i ==> r.vol.ContentOf(j) == v.ContentOf(j)
  {
    var r, i, c := FsWrite(v, name, data), SlotFor(v.dir, name), ChainFor(v, name, |data|);
    WriteKeepsOthers(v, name, data);
    var e, d := Filled(EntryFor(v.dir, name), [], 0), [];
    if r.ok {
      e, d := Filled(EntryFor(v.dir, name), c, |data|), c;
      WriteReplaces(v, name, data);
      WrittenContent(v, name, data);
    } else {
      FullWriteReplaces(v, name, data);
    }
    ReplaceSetsChain(v, r.vol, i, e, d);
    forall j | 0 <= j < FS_DIR_ENTRIES && j != i ensures r.vol.ContentOf(j) == v.ContentOf(j) {
      OthersKeepContent(v, r.vol, i, e, d, j);
    }
    WriteKeepsInv(v, name, data);
  }

  /** fs_write: a success binds the name to the data; a full disk leaves
      exactly that name empty; a refused call changes nothing. */
  lemma WriteRefines(v: Volume, name: CString, data: seq<byte>)
    requires Inv(v) && |data| < 0x1_0000_0000
    ensures var r := FsWrite(v, name, data);
      if r.ok then Files(r.vol) == Files(v)[name := data]
      else if ValidName(name) && SlotFor(v.dir, name) >= 0 then Files(r.vol) == Files(v)[name := []]
      else r.vol == v
  {
    if ValidName(name) && SlotFor(v.dir, name) >= 0 {
      WriteContents(v, name, data);
      SlotRefines(v, FsWrite(v, name, data).vol, SlotFor(v.dir, name));
      BindName(Files(v), v.dir, name, FsWrite(v, name, data).vol.dir[SlotFor(v.dir, name)],
        if FsWrite(v, name, data).ok then data else []);
    }
  }

  /** Reading back what a successful fs_write stored: the length, and as much of
      the data as the buffer holds. */
  lemma WriteThenRead(v: Volume, name: CString, data: seq<byte>, maxlen: nat)
    requires Inv(v) && |data| < 0x1_0000_0000 && FsWrite(v, name, data).ok
    ensures Inv(FsWrite(v, name, data).vol)
    ensures FsRead(FsWrite(v, name, data).vol, name, maxlen) == Found(|data|, data[..Min(maxlen, |data|)])
  {
    var w, i := FsWrite(v, name, data).vol, SlotFor(v.dir, name);
    WriteKeepsInv(v, name, data);
    WriteContents(v, name, data);
    FindUsed(w, i);
    ReadDeliversContent(w, name, maxlen);
  }

  /** The slot fs_write chose is the file's own or an unused one, so its old name adds nothing. */
  lemma BindName(files: map<CString, seq<byte>>, dir: seq<Dirent>, name: CString, e: Dirent, content: seq<byte>)
    requires |dir| == FS_DIR_ENTRIES && SlotFor(dir, name) >= 0 && Used(e) && Text(e.name) == name
    ensures Rebound(files, dir[SlotFor(dir, name)], e, content) == files[name := content]
  {
  }

  /** fs_delete removes the name; deleting a missing name changes nothing. */
  lemma DeleteRefines(v: Volume, name: CString)
    requires Inv(v)
    ensures var r := FsDelete(v, name);
      && (r.ok <==> name in Files(v))
      && Files(r.vol) == Files(v) - {name}
  {
    NamesAreFound(v, name);
    if Find(v.dir, name) >= 0 {
      DeleteContents(v, name);
      SlotRefines(v, FsDelete(v, name).vol, Find(v.dir, name));
    }
  }

  lemma DeleteContents(v: Volume, name: CString)
    requires Inv(v) && Find(v.dir, name) >= 0
    ensures var w, i := FsDelete(v, name).vol, Find(v.dir, name);
      && NamesOk(w) && |w.dir| == FS_DIR_ENTRIES && w.dir == v.dir[i := BLANK]
      && forall j :: 0 <= j < FS_DIR_ENTRIES && j != i ==> w.ContentOf(j) == v.ContentOf(j)
  {
    var w, i := FsDelete(v, name).vol, Find(v.dir, name);
    DeleteKeepsInv(v, name);
    DeleteReplaces(v, name);
    FlushedElsewhere(v.sb, v.disk, w.fat, w.dir);
    forall j | 0 <= j < FS_DIR_ENTRIES && j != i ensures w.ContentOf(j) == v.ContentOf(j) {
      OthersKeepContent(v, w, i, BLANK, [], j);
    }
  }

  /** fs_rename moves the bytes to the new name, and refuses an existing one. */
  lemma RenameRefines(v: Volume, oldName: CString, newName: CString)
    requires Inv(v)
    ensures var r := FsRename(v, oldName, newName);
      && (r.ok <==> ValidName(newName) && oldName in Files(v) && newName !in Files(v))
      && Files(r.vol) == if r.ok then (Files(v) - {oldName})[newName := Files(v)[oldName]] else Files(v)
  {
    NamesAreFound(v, oldName);
    NamesAreFound(v, newName);
    if FsRename(v, oldName, newName).ok {
      RenameKeepsInv(v, oldName, newName);
      RenamedContents(v, oldName, newName);
      TextOfPadded(newName, FS_MAX_NAME + 1);
      SlotRefines(v, FsRename(v, oldName, newName).vol, Find(v.dir, oldName));
    }
  }

  lemma RenamedContents(v: Volume, oldName: CString, newName: CString)
    requires Inv(v) && FsRename(v, oldName, newName).ok
    ensures forall j :: 0 <= j < FS_DIR_ENTRIES ==> FsRename(v, oldName, newName).vol.ContentOf(j) == v.ContentOf(j)
  {
    var w := FsRename(v, oldName, newName).vol;
    RenameKeepsChains(v, oldName, newName);
    RenamedDisk(v, oldName, newName);
    forall j | 0 <= j < FS_DIR_ENTRIES ensures w.ContentOf(j) == v.ContentOf(j) {
      assert SlotOk(v, j);
      GatherFrame(v.disk, w.disk, v.sb, v.ChainOf(j), v.dir[j].size);
    }
  }
}
