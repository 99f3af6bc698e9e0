/** Block accounting, and the bounded map that RPFS refines over every run. */
module RpfsSpace {
  import opened Bytes
  import opened Drives
  import opened RpfsLayout
  import opened RpfsFat
  import opened RpfsVolume
  import opened RpfsOps
  import opened RpfsFiles

  // --- conservation of blocks -----------------------------------------------

  ghost function FreeBlocks(v: Volume): nat
    requires v.Shaped()
  {
    FreeCount(v.fat, 1, v.sb.dataBlocks)
  }

  /** The blocks on the chains of the first `n` slots. */
  ghost function ChainTotal(v: Volume, n: nat): nat
    requires n <= |v.dir|
  {
    if n == 0 then 0 else ChainTotal(v, n - 1) + |v.ChainOf(n - 1)|
  }

  /** The table with the chains of the first `n` slots freed. */
  ghost function FreedUpTo(v: Volume, n: nat): (fat: seq<u16>)
    requires n <= |v.dir|
    ensures |fat| == |v.fat|
  {
    if n == 0 then v.fat else Cleared(FreedUpTo(v, n - 1), v.ChainOf(n - 1))
  }

  lemma {:induction false} FreedUpToShape(v: Volume, n: nat, x: nat)
    requires n <= |v.dir| && x < |v.fat|
    ensures FreedUpTo(v, n)[x] == if exists i :: 0 <= i < n && x in v.ChainOf(i) then FAT_FREE else v.fat[x]
    decreases n
  {
    hide Chain;
    if n > 0 {
      FreedUpToShape(v, n - 1, x);
      var last := v.ChainOf(n - 1);
      assert FreedUpTo(v, n)[x] == if x in last then FAT_FREE else FreedUpTo(v, n - 1)[x];
      hide FreedUpTo, Cleared;
      if i :| 0 <= i < n && x in v.ChainOf(i) {
        assert i == n - 1 || exists j :: 0 <= j < n - 1 && x in v.ChainOf(j);
      }
    }
  }

  lemma NextStillTaken(v: Volume, n: nat)
    requires Inv(v) && n < FS_DIR_ENTRIES
    ensures var c := v.ChainOf(n);
      && Ascending(c)
      && forall k :: 0 <= k < |c| ==> 1 <= c[k] <= v.sb.dataBlocks < |v.fat| && FreedUpTo(v, n)[c[k]] != FAT_FREE
  {
    var c := v.ChainOf(n);
    assert SlotOk(v, n);
    forall k | 0 <= k < |c| ensures FreedUpTo(v, n)[c[k]] != FAT_FREE {
      assert c[k] in c && v.fat[c[k]] == Next(c, k);
      FreedUpToShape(v, n, c[k]);
    }
  }

  lemma {:induction false} FreedUpToCount(v: Volume, n: nat)
    requires Inv(v) && n <= FS_DIR_ENTRIES
    ensures FreeCount(FreedUpTo(v, n), 1, v.sb.dataBlocks) == FreeBlocks(v) + ChainTotal(v, n)
    decreases n
  {
    hide NamesOk, SlotOk, ChainsDisjoint, LinksOk, FreeCount, Chain;
    if n > 0 {
      FreedUpToCount(v, n - 1);
      NextStillTaken(v, n - 1);
      FreeCountChange(FreedUpTo(v, n - 1), FreedUpTo(v, n), v.ChainOf(n - 1), 1, v.sb.dataBlocks);
    }
  }

  /** The count is at most the number of entries, and that only if all are free. */
  lemma {:induction false} FreeCountBound(fat: seq<u16>, b: nat, blocks: nat)
    requires blocks < |fat| && 1 <= b <= blocks + 1
    ensures FreeCount(fat, b, blocks) <= blocks + 1 - b
    ensures FreeCount(fat, b, blocks) == blocks + 1 - b <==> forall x :: b <= x <= blocks ==> fat[x] == FAT_FREE
    decreases blocks - b
  {
    if b <= blocks {
      FreeCountBound(fat, b + 1, blocks);
    }
  }

  /** The blocks files can use: those free and those on chains. */
  ghost function Capacity(v: Volume): nat
    requires v.Shaped()
  {
    FreeBlocks(v) + ChainTotal(v, |v.dir|)
  }

  /** They make up the whole data region if and only if no block is lost. */
  lemma CapacityFullIff(v: Volume)
    requires Inv(v)
    ensures Capacity(v) <= v.sb.dataBlocks
    ensures Capacity(v) == v.sb.dataBlocks <==> Tight(v)
  {
    var n, blocks := |v.dir|, v.sb.dataBlocks;
    FreedUpToCount(v, n);
    hide NamesOk, SlotOk, ChainsDisjoint, LinksOk, FreeCount, Chain;
    FreeCountBound(FreedUpTo(v, n), 1, blocks);
    forall x | 1 <= x <= blocks
      ensures FreedUpTo(v, n)[x] == FAT_FREE <==> v.fat[x] == FAT_FREE || Owned(v, x)
    {
      FreedUpToShape(v, n, x);
    }
  }

  lemma {:induction false} ChainTotalReplaced(v: Volume, w: Volume, i: nat, n: nat)
    requires |v.dir| == |w.dir| && i < |v.dir| && n <= |v.dir|
    requires forall j :: 0 <= j < |v.dir| && j != i ==> w.ChainOf(j) == v.ChainOf(j)
    ensures ChainTotal(w, n) - ChainTotal(v, n) == if i < n then |w.ChainOf(i)| - |v.ChainOf(i)| else 0
    decreases n
  {
    hide Chain;
    if n > 0 {
      ChainTotalReplaced(v, w, i, n - 1);
    }
  }

  /** Clearing the chain of a slot frees exactly its blocks. */
  lemma ClearedCount(v: Volume, i: nat)
    requires v.Shaped() && i < FS_DIR_ENTRIES && SlotOk(v, i)
    ensures FreeCount(Cleared(v.fat, v.ChainOf(i)), 1, v.sb.dataBlocks) == FreeBlocks(v) + |v.ChainOf(i)|
  {
    var c := v.ChainOf(i);
    assert forall k :: 0 <= k < |c| ==> v.fat[c[k]] == Next(c, k);
    FreeCountChange(v.fat, Cleared(v.fat, c), c, 1, v.sb.dataBlocks);
  }

  lemma LinkedCount(fat: seq<u16>, linked: seq<u16>, c: seq<u16>, blocks: nat)
    requires blocks < |fat| && Ascending(c) && forall k :: 0 <= k < |c| ==> 1 <= c[k] <= blocks && fat[c[k]] == FAT_FREE
    requires linked == Linked(fat, c)
    ensures |linked| == |fat| && FreeCount(fat, 1, blocks) == FreeCount(linked, 1, blocks) + |c|
  {
    LinkedShape(fat, c);
    FreeCountChange(linked, fat, c, 1, blocks);
  }

  /** Replacing a slot and its chain neither loses a block nor finds one. */
  lemma ReplaceKeepsCapacity(v: Volume, w: Volume, i: nat, e: Dirent, c: seq<u16>)
    requires Inv(v) && i < FS_DIR_ENTRIES && ReplacesSlot(v, w, i, e, c)
    ensures Capacity(w) == Capacity(v)
  {
    ReplaceKeepsInv(v, w, i, e, c);
    ClearedCount(v, i);
    LinkedCount(Cleared(v.fat, v.ChainOf(i)), w.fat, c, v.sb.dataBlocks);
    hide Inv, ChainTotal, FreeCount, Linked, Cleared, Chain;
    ChainTotalReplaced(v, w, i, |v.dir|);
  }

  /** No operation changes what files can use, lost blocks staying lost. */
  lemma WriteKeepsCapacity(v: Volume, name: CString, data: seq<byte>)
    requires v.Shaped() && |data| < 0x1_0000_0000
    requires Inv(v)
    ensures Capacity(FsWrite(v, name, data).vol) == Capacity(v)
  {
    InvShaped(v);
    hide Inv, ReplacesSlot, Capacity;
    if ValidName(name) && SlotFor(v.dir, name) >= 0 {
      var r, e, c := FsWrite(v, name, data), EntryFor(v.dir, name), ChainFor(v, name, |data|);
      if r.ok {
        WriteReplaces(v, name, data);
        ReplaceKeepsCapacity(v, r.vol, SlotFor(v.dir, name), Filled(e, c, |data|), c);
      } else {
        FullWriteReplaces(v, name, data);
        ReplaceKeepsCapacity(v, r.vol, SlotFor(v.dir, name), Filled(e, [], 0), []);
      }
    }
  }

  lemma DeleteKeepsCapacity(v: Volume, name: CString)
    requires v.Shaped()
    requires Inv(v)
    ensures Capacity(FsDelete(v, name).vol) == Capacity(v)
  {
    hide Inv, ReplacesSlot, Capacity;
    if Find(v.dir, name) >= 0 {
      DeleteReplaces(v, name);
      ReplaceKeepsCapacity(v, FsDelete(v, name).vol, Find(v.dir, name), BLANK, []);
    }
  }

  lemma RenameKeepsCapacity(v: Volume, oldName: CString, newName: CString)
    requires Inv(v)
    ensures Capacity(FsRename(v, oldName, newName).vol) == Capacity(v)
  {
    RenameKeepsChains(v, oldName, newName);
    hide Inv, Chain, FreeCount, ChainTotal;
    ChainTotalReplaced(v, FsRename(v, oldName, newName).vol, 0, |v.dir|);
  }

  /** fs_write succeeds exactly when the name is valid, a slot is available,
      and the data fits in the free blocks plus those of the file it replaces;
      the new chain is then as long as the data needs. */
  lemma WriteSucceedsIff(v: Volume, name: CString, data: seq<byte>)
    requires v.Shaped() && |data| < 0x1_0000_0000
    requires SlotFor(v.dir, name) >= 0 ==> SlotOk(v, SlotFor(v.dir, name))
    ensures FsWrite(v, name, data).ok <==>
      && ValidName(name) && SlotFor(v.dir, name) >= 0
      && BlocksFor(|data|) <= FreeBlocks(v) + |v.ChainOf(SlotFor(v.dir, name))|
  {
    if ValidName(name) && SlotFor(v.dir, name) >= 0 {
      ClearedCount(v, SlotFor(v.dir, name));
      LowestFreeShape(DroppedFat(v, name), 1, v.sb.dataBlocks, BlocksFor(|data|));
    }
  }

  /** The chosen chain: ascending blocks, free once the old file is dropped,
      with every block left free above all of them. */
  lemma WriteTakesLowest(v: Volume, name: CString, data: seq<byte>)
    requires Inv(v) && |data| < 0x1_0000_0000 && SlotFor(v.dir, name) >= 0 && FsWrite(v, name, data).ok
    ensures var w, i := FsWrite(v, name, data).vol, SlotFor(v.dir, name);
            && i < |w.dir| &&
            var c := w.ChainOf(i);
      && |c| == BlocksFor(|data|)
      && (forall k :: 0 <= k < |c| ==>
           1 <= c[k] <= v.sb.dataBlocks && (v.fat[c[k]] == FAT_FREE || c[k] in v.ChainOf(i)))
      && (forall x, k :: 1 <= x <= v.sb.dataBlocks && x < |w.fat| && w.fat[x] == FAT_FREE && 0 <= k < |c| ==> c[k] < x)
  {
    hide Inv, Chain, LowestFree, FreeCount, ReplacesSlot, Linked, Cleared, FsWrite, ChainFor;
    InvShaped(v);
    var w, i, c := FsWrite(v, name, data).vol, SlotFor(v.dir, name), ChainFor(v, name, |data|);
    OkChain(v, name, data);
    WriteReplaces(v, name, data);
    ReplaceSetsChain(v, w, i, Filled(EntryFor(v.dir, name), c, |data|), c);
    WrittenTable(v, name, data);
    ChosenLowest(v, name, |data|);
    forall x | 1 <= x <= v.sb.dataBlocks && x < |w.fat| && w.fat[x] == FAT_FREE
      ensures DroppedFat(v, name)[x] == FAT_FREE && x !in c
    {
      FreeAfterLinking(DroppedFat(v, name), c, x);
    }
    forall k | 0 <= k < |c| ensures v.fat[c[k]] == FAT_FREE || c[k] in v.ChainOf(i) {
      ClearedAt(v.fat, v.ChainOf(i), c[k]);
    }
  }

  lemma ClearedAt(fat: seq<u16>, c: seq<u16>, x: u16)
    requires x < |fat| && Cleared(fat, c)[x] == FAT_FREE
    ensures fat[x] == FAT_FREE || x in c
  {
  }

  lemma WrittenTable(v: Volume, name: CString, data: seq<byte>)
    requires v.Shaped() && |data| < 0x1_0000_0000 && SlotFor(v.dir, name) >= 0 && FsWrite(v, name, data).ok
    requires SlotOk(v, SlotFor(v.dir, name))
    ensures var w, i, c := FsWrite(v, name, data).vol, SlotFor(v.dir, name), ChainFor(v, name, |data|);
      && |w.dir| == |v.dir| && |w.fat| == |v.fat| && v.sb.dataBlocks < |v.fat|
      && w.fat == Linked(DroppedFat(v, name), c) && DroppedFat(v, name) == Cleared(v.fat, v.ChainOf(i))
  {
    hide Replay, Chain;
  }

  lemma ChosenLowest(v: Volume, name: CString, len: nat)
    requires v.Shaped() && SlotFor(v.dir, name) >= 0
    ensures v.sb.dataBlocks < |v.fat| && AreLowest(DroppedFat(v, name), 1, v.sb.dataBlocks, ChainFor(v, name, len))
  {
    hide Chain;
    LowestFreeShape(DroppedFat(v, name), 1, v.sb.dataBlocks, BlocksFor(len));
  }

  // --- the bounded map ------------------------------------------------------

  /** The blocks a map of files needs. */
  ghost function TotalBlocks(m: map<CString, seq<byte>>): nat
    decreases |m|
  {
    if |m| == 0 then 0
    else
      var n :| n in m;
      BlocksFor(|m[n]|) + TotalBlocks(m - {n})
  }

  /** The name TotalBlocks picks. */
  lemma PickedName(m: map<CString, seq<byte>>) returns (k: CString)
    requires |m| > 0
    ensures k in m && TotalBlocks(m) == BlocksFor(|m[k]|) + TotalBlocks(m - {k})
  {
    k :| k in m && TotalBlocks(m) == BlocksFor(|m[k]|) + TotalBlocks(m - {k});
  }

  lemma WithoutTwo(m: map<CString, seq<byte>>, k: CString, n: CString)
    requires k in m && n in m && k != n
    ensures n in m - {k} && (m - {k})[n] == m[n] && |m - {k}| == |m| - 1
    ensures k in m - {n} && (m - {n})[k] == m[k] && |m - {n}| == |m| - 1
    ensures m - {k} - {n} == m - {n} - {k}
  {
    assert (m - {k}).Keys == m.Keys - {k} && (m - {n}).Keys == m.Keys - {n};
  }

  lemma {:induction false} TotalBlocksWithout(m: map<CString, seq<byte>>, n: CString)
    requires n in m
    ensures TotalBlocks(m) == BlocksFor(|m[n]|) + TotalBlocks(m - {n})
    decreases |m|
  {
    hide TotalBlocks, BlocksFor;
    var k := PickedName(m);
    if k != n {
      WithoutTwo(m, k, n);
      TotalBlocksWithout(m - {k}, n);
      TotalBlocksWithout(m - {n}, k);
    }
  }

  ghost function UsedUpTo(dir: seq<Dirent>, n: nat): nat
    requires n <= |dir|
  {
    if n == 0 then 0 else UsedUpTo(dir, n - 1) + if Used(dir[n - 1]) then 1 else 0
  }

  /** All that accounting needs of a volume: proper names, and chains that stay
      in the data region. */
  ghost predicate Countable(v: Volume) {
    && v.Shaped() && NamesOk(v)
    && forall i, k :: 0 <= i < FS_DIR_ENTRIES && 0 <= k < |v.ChainOf(i)| ==> 1 <= v.ChainOf(i)[k] <= v.sb.dataBlocks
  }

  lemma InvIsCountable(v: Volume)
    requires Inv(v)
    ensures Countable(v)
  {
    forall i, k | 0 <= i < FS_DIR_ENTRIES && 0 <= k < |v.ChainOf(i)|
      ensures 1 <= v.ChainOf(i)[k] <= v.sb.dataBlocks
    {
      assert SlotOk(v, i);
    }
  }

  /** The blocks on the chain of slot `i` that its size does not need. */
  ghost function Surplus(v: Volume, i: nat): nat
    requires i < |v.dir|
  {
    if Used(v.dir[i]) then Max(0, |v.ChainOf(i)| - BlocksFor(v.dir[i].size)) else 0
  }

  ghost function SurplusUpTo(v: Volume, n: nat): nat
    requires n <= |v.dir|
  {
    if n == 0 then 0 else SurplusUpTo(v, n - 1) + Surplus(v, n - 1)
  }

  /** The contents of a file need all the blocks of its chain but the surplus. */
  lemma ContentBlocks(v: Volume, i: nat)
    requires Countable(v) && i < FS_DIR_ENTRIES && Used(v.dir[i])
    ensures BlocksFor(|v.ContentOf(i)|) + Surplus(v, i) == |v.ChainOf(i)|
  {
    GatherLength(v.disk, v.sb, v.ChainOf(i), v.dir[i].size);
    hide Chain, Gather, NamesOk;
  }

  lemma {:induction false} SurplusBound(v: Volume, i: nat, n: nat)
    requires i < n <= |v.dir|
    ensures Surplus(v, i) <= SurplusUpTo(v, n)
    decreases n
  {
    hide Surplus;
    if i < n - 1 {
      SurplusBound(v, i, n - 1);
    }
  }

  lemma {:induction false} SurplusOfTwo(v: Volume, i: nat, j: nat, n: nat)
    requires i < n <= |v.dir| && j < n && i != j
    ensures Surplus(v, i) + Surplus(v, j) <= SurplusUpTo(v, n)
    decreases n
  {
    hide Surplus;
    if i == n - 1 {
      SurplusBound(v, j, n - 1);
    } else if j == n - 1 {
      SurplusBound(v, i, n - 1);
    } else {
      SurplusOfTwo(v, i, j, n - 1);
    }
  }

  lemma {:induction false} NoSurplusUpTo(v: Volume, n: nat)
    requires n <= |v.dir| && forall i :: 0 <= i < n ==> Surplus(v, i) == 0
    ensures SurplusUpTo(v, n) == 0
    decreases n
  {
    hide Surplus;
    if n > 0 {
      NoSurplusUpTo(v, n - 1);
    }
  }

  /** There is no surplus exactly when every file fits. */
  lemma NoSurplusIff(v: Volume)
    requires v.Shaped()
    ensures SurplusUpTo(v, |v.dir|) == 0 <==> Fitting(v)
  {
    if Fitting(v) {
      NoSurplusUpTo(v, |v.dir|);
    }
    if SurplusUpTo(v, |v.dir|) == 0 {
      forall i | 0 <= i < |v.dir| && Used(v.dir[i]) ensures |v.ChainOf(i)| <= BlocksFor(v.dir[i].size) {
        SurplusBound(v, i, |v.dir|);
        assert Surplus(v, i) == 0;
      }
    }
  }

  lemma TotalBlocksWith(m: map<CString, seq<byte>>, n: CString, data: seq<byte>)
    requires n !in m
    ensures TotalBlocks(m[n := data]) == TotalBlocks(m) + BlocksFor(|data|)
    ensures |m[n := data]| == |m| + 1
  {
    assert m[n := data] - {n} == m;
    TotalBlocksWithout(m[n := data], n);
  }

  lemma NoFilesNoBlocks()
    ensures TotalBlocks(map[]) == 0
  {
  }

  lemma {:induction false} FilesUpToTotals(v: Volume, n: nat)
    requires Countable(v) && n <= FS_DIR_ENTRIES
    ensures TotalBlocks(FilesUpTo(v, n)) + SurplusUpTo(v, n) == ChainTotal(v, n)
    ensures |FilesUpTo(v, n)| == UsedUpTo(v.dir, n)
    decreases n
  {
    hide TotalBlocks, BlocksFor, Countable, Chain, Gather;
    NoFilesNoBlocks();
    if n > 0 {
      CountableShaped(v);
      FilesUpToTotals(v, n - 1);
      if Used(v.dir[n - 1]) {
        NextFile(v, n);
      }
    }
  }

  lemma CountableShaped(v: Volume)
    requires Countable(v)
    ensures v.Shaped() && NamesOk(v)
  {
  }

  /** What the file in the last of the first `n` slots adds. */
  lemma NextFile(v: Volume, n: nat)
    requires v.Shaped() && 0 < n <= FS_DIR_ENTRIES && Used(v.dir[n - 1])
    requires Countable(v)
    ensures TotalBlocks(FilesUpTo(v, n)) + Surplus(v, n - 1)
         == TotalBlocks(FilesUpTo(v, n - 1)) + |v.ChainOf(n - 1)|
    ensures |FilesUpTo(v, n)| == |FilesUpTo(v, n - 1)| + 1
  {
    hide TotalBlocks, BlocksFor, Chain, Gather, Find;
    FindUsed(v, n - 1);
    NamesUpTo(v, n - 1, Text(v.dir[n - 1].name));
    ContentBlocks(v, n - 1);
    TotalBlocksWith(FilesUpTo(v, n - 1), Text(v.dir[n - 1].name), v.ContentOf(n - 1));
  }

  lemma {:induction false} UsedUpToBound(dir: seq<Dirent>, n: nat)
    requires n <= |dir|
    ensures UsedUpTo(dir, n) <= n
    ensures UsedUpTo(dir, n) == n <==> forall i :: 0 <= i < n ==> Used(dir[i])
    decreases n
  {
    if n > 0 {
      UsedUpToBound(dir, n - 1);
    }
  }

  /** What the files of the map need, what their chains have beyond that, and the
      free blocks make up the capacity; the directory is full exactly when the
      map has 64 names. */
  lemma MapMeasuresVolume(v: Volume)
    requires Countable(v)
    ensures TotalBlocks(Files(v)) + SurplusUpTo(v, |v.dir|) + FreeBlocks(v) == Capacity(v)
    ensures |Files(v)| == FS_DIR_ENTRIES <==> FreeSlotFrom(v.dir, 0) == -1
  {
    FilesUpToTotals(v, |v.dir|);
    UsedUpToBound(v.dir, |v.dir|);
  }

  /** The specification: a map with at most 64 names over `blocks` blocks. */
  ghost function MapWrite(m: map<CString, seq<byte>>, blocks: nat, name: CString, data: seq<byte>)
    : (map<CString, seq<byte>>, bool)
  {
    if !ValidName(name) || (name !in m && |m| == FS_DIR_ENTRIES) then (m, false)
    else if BlocksFor(|data|) + TotalBlocks(m - {name}) <= blocks then (m[name := data], true)
    else (m[name := []], false)
  }

  /** The data would fit if the surplus of other files were free. */
  ghost predicate Squeezed(v: Volume, name: CString, len: nat)
    requires v.Shaped()
  {
    && ValidName(name) && SlotFor(v.dir, name) >= 0
    && var i := SlotFor(v.dir, name);
       var room := FreeBlocks(v) + |v.ChainOf(i)|;
       room < BlocksFor(len) && BlocksFor(len) + Surplus(v, i) <= room + SurplusUpTo(v, |v.dir|)
  }

  /** On every consistent volume fs_write behaves as the bounded map does,
      failures included, exactly when the data is not squeezed out by surplus. */
  lemma WriteMatchesMap(v: Volume, name: CString, data: seq<byte>)
    requires v.Shaped() && |data| < 0x1_0000_0000
    requires Inv(v)
    ensures var r, m := FsWrite(v, name, data), MapWrite(Files(v), Capacity(v), name, data);
      && (Files(r.vol) == m.0 <==> !Squeezed(v, name, |data|))
      && (r.ok == m.1 <==> !Squeezed(v, name, |data|))
  {
    hide Inv, FsWrite, Files, Capacity, Surplus, SurplusUpTo, Chain, TotalBlocks, FreeCount, ChainTotal, SlotOk;
    InvShaped(v);
    WriteSucceedsIff(v, name, data);
    WriteRefines(v, name, data);
    InvIsCountable(v);
    MapGrantsIff(v, name, |data|);
    if ValidName(name) && SlotFor(v.dir, name) >= 0 {
      SurplusBound(v, SlotFor(v.dir, name), |v.dir|);
      assert |data| > 0 ==> Files(v)[name := []][name] != Files(v)[name := data][name];
    }
  }

  /** When the bounded map grants a write. */
  lemma MapGrantsIff(v: Volume, name: CString, len: nat)
    requires v.Shaped()
    requires Countable(v)
    ensures SlotFor(v.dir, name) < 0 <==> name !in Files(v) && |Files(v)| == FS_DIR_ENTRIES
    ensures var i := SlotFor(v.dir, name);
      i >= 0 ==>
        (BlocksFor(len) + TotalBlocks(Files(v) - {name}) <= Capacity(v) <==>
         BlocksFor(len) + Surplus(v, i) <= FreeBlocks(v) + |v.ChainOf(i)| + SurplusUpTo(v, |v.dir|))
  {
    MapMeasuresVolume(v);
    NamesAreFound(v, name);
    hide Files, Capacity, Surplus, SurplusUpTo, Chain, TotalBlocks, FreeCount, ChainTotal, Countable;
    if SlotFor(v.dir, name) >= 0 {
      OthersTotal(v, name);
    }
  }

  /** Blocks of the other files, free blocks and the file's own chain make up
      the capacity, but for what the other chains have too many. */
  lemma OthersTotal(v: Volume, name: CString)
    requires v.Shaped() && SlotFor(v.dir, name) >= 0
    requires Countable(v)
    ensures var i := SlotFor(v.dir, name);
      TotalBlocks(Files(v) - {name}) + FreeBlocks(v) + |v.ChainOf(i)| + SurplusUpTo(v, |v.dir|)
        == Capacity(v) + Surplus(v, i)
  {
    MapMeasuresVolume(v);
    NamesAreFound(v, name);
    var i := Find(v.dir, name);
    if i >= 0 {
      ContentBlocks(v, i);
      TotalBlocksWithout(Files(v), name);
    } else {
      assert Files(v) - {name} == Files(v);
    }
  }

  // --- whole runs -----------------------------------------------------------

  datatype Op =
    | Write(name: CString, data: seq<byte>)
    | Delete(name: CString)
    | Rename(oldName: CString, newName: CString)
    | Remount

  /** fs_mount finds this volume's superblock on the platter. */
  ghost predicate Mountable(v: Volume) {
    v.Shaped() && ParseSuperblock(v.disk[FS_START_LBA]) == v.sb
  }

  /** A consistent volume, its caches as on the platter, without surplus blocks. */
  ghost predicate Good(v: Volume) {
    Inv(v) && Fitting(v) && Synced(v)
  }

  predicate CallableOp(op: Op) {
    op.Write? ==> |op.data| < 0x1_0000_0000
  }

  ghost predicate Callable(ops: seq<Op>) {
    forall k :: 0 <= k < |ops| ==> CallableOp(ops[k])
  }

  lemma MetadataKeepsSuperblock(v: Volume, disk: seq<Sector>, fat: seq<u16>, dir: seq<Dirent>)
    requires v.Shaped() && |disk| == |v.disk| && |fat| == |v.fat| && |dir| == FS_DIR_ENTRIES
    ensures Replay(disk, FatLog(v.sb, fat) + DirLog(v.sb, dir))[FS_START_LBA] == disk[FS_START_LBA]
  {
    FlushedElsewhere(v.sb, disk, fat, dir);
  }

  lemma WriteKeepsMountable(v: Volume, name: CString, data: seq<byte>)
    requires Mountable(v) && |data| < 0x1_0000_0000
    ensures Mountable(FsWrite(v, name, data).vol) && FsWrite(v, name, data).vol.sb == v.sb
  {
    hide ParseSuperblock;
    if ValidName(name) && SlotFor(v.dir, name) >= 0 {
      var w, c := FsWrite(v, name, data).vol, ChainFor(v, name, |data|);
      WriteLogParts(v, name, data);
      WrittenDisk(v, name, data);
      DataKeepsMetadata(v.disk, v.sb, c, data);
      hide FsWrite, ChainFor, Replay, FatLog, DirLog, DataLog;
      MetadataKeepsSuperblock(v, Replay(v.disk, DataLog(v.sb, c, data)), w.fat, w.dir);
    }
  }

  lemma DeleteKeepsMountable(v: Volume, name: CString)
    requires Mountable(v)
    ensures Mountable(FsDelete(v, name).vol) && FsDelete(v, name).vol.sb == v.sb
  {
    hide ParseSuperblock;
    if Find(v.dir, name) >= 0 {
      MetadataKeepsSuperblock(v, v.disk, FsDelete(v, name).vol.fat, FsDelete(v, name).vol.dir);
    }
  }

  lemma RenameKeepsMountable(v: Volume, oldName: CString, newName: CString)
    requires Mountable(v)
    ensures Mountable(FsRename(v, oldName, newName).vol) && FsRename(v, oldName, newName).vol.sb == v.sb
  {
    hide ParseSuperblock;
    if FsRename(v, oldName, newName).ok {
      RenamedDisk(v, oldName, newName);
    }
  }

  lemma RemountKeepsMountable(v: Volume)
    requires Mountable(v)
    ensures Mountable(MountImage(v.disk)) && MountImage(v.disk).sb == v.sb
  {
  }

  /** One call, on any volume, consistent or not. */
  ghost function Step(v: Volume, op: Op): (w: Volume)
    requires Mountable(v) && CallableOp(op)
    ensures Mountable(w) && w.sb == v.sb
  {
    match op
    case Write(name, data) =>
      WriteKeepsMountable(v, name, data);
      FsWrite(v, name, data).vol
    case Delete(name) =>
      DeleteKeepsMountable(v, name);
      FsDelete(v, name).vol
    case Rename(oldName, newName) =>
      RenameKeepsMountable(v, oldName, newName);
      FsRename(v, oldName, newName).vol
    case Remount =>
      RemountKeepsMountable(v);
      MountImage(v.disk)
  }

  ghost function MapStep(m: map<CString, seq<byte>>, blocks: nat, op: Op): map<CString, seq<byte>> {
    match op
    case Write(name, data) => MapWrite(m, blocks, name, data).0
    case Delete(name) => m - {name}
    case Rename(oldName, newName) =>
      if ValidName(newName) && oldName in m && newName !in m then (m - {oldName})[newName := m[oldName]] else m
    case Remount => m
  }

  ghost function Run(v: Volume, ops: seq<Op>): (w: Volume)
    requires Mountable(v) && Callable(ops)
    ensures Mountable(w) && w.sb == v.sb
    decreases |ops|
  {
    if |ops| == 0 then v
    else Step(Run(v, ops[..|ops| - 1]), ops[|ops| - 1])
  }

  ghost function MapRun(m: map<CString, seq<byte>>, blocks: nat, ops: seq<Op>): map<CString, seq<byte>>
    decreases |ops|
  {
    if |ops| == 0 then m
    else MapStep(MapRun(m, blocks, ops[..|ops| - 1]), blocks, ops[|ops| - 1])
  }

  /** A run acts on the files as the bounded map does, its bound being the blocks
      that are free or on chains. */
  ghost predicate ActsAsMap(v: Volume, ops: seq<Op>)
    requires Mountable(v) && Callable(ops)
  {
    Files(Run(v, ops)) == MapRun(Files(v), Capacity(v), ops)
  }

  /** Every run does. */
  ghost predicate RefinesMap(v: Volume)
    requires Mountable(v)
  {
    forall ops :: Callable(ops) ==> ActsAsMap(v, ops)
  }

  lemma SyncedIsMountable(v: Volume)
    requires v.Shaped() && Synced(v)
    ensures Mountable(v)
  {
    hide ParseSuperblock;
    SuperblockRoundTrip(v.sb);
  }

  lemma GoodParts(v: Volume)
    requires Good(v)
    ensures v.Shaped() && Inv(v) && Fitting(v) && Synced(v) && Mountable(v)
  {
    SyncedIsMountable(v);
  }

  lemma StepKeepsGood(v: Volume, op: Op)
    requires Mountable(v) && CallableOp(op)
    requires Good(v)
    ensures Good(Step(v, op))
  {
    hide Inv, Fitting, Synced, FsWrite, FsDelete, FsRename, MountImage, Mountable;
    GoodParts(v);
    match op
    case Write(name, data) => WriteKeepsInv(v, name, data); WriteKeepsSynced(v, name, data);
    case Delete(name) => DeleteKeepsInv(v, name); DeleteKeepsSynced(v, name);
    case Rename(oldName, newName) =>
      RenameKeepsInv(v, oldName, newName);
      RenameKeepsSynced(v, oldName, newName);
    case Remount => RemountIdentity(v);
  }

  lemma FittingIsUnsqueezed(v: Volume, name: CString, len: nat)
    requires v.Shaped() && Fitting(v)
    ensures !Squeezed(v, name, len)
  {
    hide Fitting, Surplus;
    NoSurplusIff(v);
    if SlotFor(v.dir, name) >= 0 {
      SurplusBound(v, SlotFor(v.dir, name), |v.dir|);
    }
  }

  lemma StepRefines(v: Volume, op: Op)
    requires Mountable(v) && CallableOp(op)
    requires Good(v)
    ensures Files(Step(v, op)) == MapStep(Files(v), Capacity(v), op)
  {
    hide Inv, Fitting, Synced, FsWrite, FsDelete, FsRename, MapWrite, Files, Capacity, MountImage, Mountable, Squeezed;
    GoodParts(v);
    match op
    case Write(name, data) => FittingIsUnsqueezed(v, name, |data|); WriteMatchesMap(v, name, data);
    case Delete(name) => DeleteRefines(v, name);
    case Rename(oldName, newName) => RenameRefines(v, oldName, newName);
    case Remount => RemountIdentity(v);
  }

  lemma StepKeepsCapacity(v: Volume, op: Op)
    requires Mountable(v) && CallableOp(op)
    requires Good(v)
    ensures Capacity(Step(v, op)) == Capacity(v)
  {
    hide Inv, Fitting, Synced, FsWrite, FsDelete, FsRename, Capacity, MountImage, Mountable;
    GoodParts(v);
    match op
    case Write(name, data) => WriteKeepsCapacity(v, name, data);
    case Delete(name) => DeleteKeepsCapacity(v, name);
    case Rename(oldName, newName) => RenameKeepsCapacity(v, oldName, newName);
    case Remount => RemountIdentity(v);
  }

  /** Over every run of writes, deletions, renames and remounts the volume
      stands for exactly what the bounded map holds, its bound being the blocks
      files can use, which no run changes. */
  lemma {:induction false} RunRefines(v: Volume, ops: seq<Op>)
    requires Mountable(v) && Callable(ops)
    requires Good(v)
    ensures Good(Run(v, ops)) && ActsAsMap(v, ops) && Capacity(Run(v, ops)) == Capacity(v)
    decreases |ops|
  {
    hide Good, Step, MapStep, Files, Capacity, Mountable, CallableOp;
    if |ops| > 0 {
      var before := ops[..|ops| - 1];
      RunRefines(v, before);
      StepKeepsGood(Run(v, before), ops[|ops| - 1]);
      StepRefines(Run(v, before), ops[|ops| - 1]);
      StepKeepsCapacity(Run(v, before), ops[|ops| - 1]);
    }
  }

  // --- where the map does not fit -------------------------------------------

  lemma RunOne(v: Volume, op: Op)
    requires Mountable(v) && CallableOp(op)
    ensures Callable([op]) && Run(v, [op]) == Step(v, op)
    ensures MapRun(Files(v), Capacity(v), [op]) == MapStep(Files(v), Capacity(v), op)
  {
    hide Step, MapStep, Files, Capacity, Mountable, CallableOp;
    assert [op][..0] == [];
  }

  /** Another name that fs_write finds a slot for. */
  lemma AnotherName(v: Volume, i: nat) returns (name: CString)
    requires v.Shaped() && NamesOk(v) && i < FS_DIR_ENTRIES && Used(v.dir[i])
    ensures ValidName(name) && name != Text(v.dir[i].name)
    ensures SlotFor(v.dir, name) >= 0 && SlotFor(v.dir, name) != i
  {
    if j :| 0 <= j < FS_DIR_ENTRIES && j != i && Used(v.dir[j]) && |Text(v.dir[j].name)| > 0 {
      name := Text(v.dir[j].name);
      FindUsed(v, j);
    } else {
      name := if Text(v.dir[i].name) == [97] then [98] else [97];
      SomeUnused(v, i);
    }
  }

  lemma SomeUnused(v: Volume, i: nat)
    requires v.Shaped() && NamesOk(v) && i < FS_DIR_ENTRIES
    requires forall j :: 0 <= j < FS_DIR_ENTRIES && j != i && Used(v.dir[j]) ==> |Text(v.dir[j].name)| == 0
    ensures FreeSlotFrom(v.dir, 0) >= 0
  {
    var j, k := if i == 0 then 1 else 0, if i <= 1 then 2 else 1;
    assert !(Used(v.dir[j]) && Used(v.dir[k]));
  }

  /** The room fs_write has under a name. */
  lemma RoomBound(v: Volume, i: nat)
    requires v.Shaped() && i < FS_DIR_ENTRIES && SlotOk(v, i)
    ensures FreeBlocks(v) + |v.ChainOf(i)| <= v.sb.dataBlocks
  {
    ClearedCount(v, i);
    FreeCountBound(Cleared(v.fat, v.ChainOf(i)), 1, v.sb.dataBlocks);
  }

  /** A write for which there is no room leaves the name empty. */
  lemma RefusedWrite(v: Volume, name: CString, data: seq<byte>)
    requires v.Shaped() && NamesOk(v) && |data| < 0x1_0000_0000 && ValidName(name) && SlotFor(v.dir, name) >= 0
    requires !FsWrite(v, name, data).ok && SlotOk(v, SlotFor(v.dir, name))
    ensures name in Files(FsWrite(v, name, data).vol) && Files(FsWrite(v, name, data).vol)[name] == []
  {
    var w, i, e := FsWrite(v, name, data).vol, SlotFor(v.dir, name), Filled(EntryFor(v.dir, name), [], 0);
    FullWriteReplaces(v, name, data);
    NamesAfterSlot(v, w, i, e);
    hide FsWrite, NamesOk, Files;
    FindUsed(w, i);
    NamesAreFound(w, name);
  }

  lemma NamesAfterSlot(v: Volume, w: Volume, i: nat, e: Dirent)
    requires NamesOk(v) && |v.dir| == FS_DIR_ENTRIES && i < FS_DIR_ENTRIES && w.dir == v.dir[i := e]
    requires Used(e) ==> |Text(e.name)| <= FS_MAX_NAME
    requires Used(e) ==>
      forall j :: 0 <= j < FS_DIR_ENTRIES && j != i && Used(v.dir[j]) ==> Text(v.dir[j].name) != Text(e.name)
    ensures NamesOk(w)
  {
    hide Text;
  }

  /** With a surplus in slot `i` a write under another name is refused that the
      map grants. */
  lemma SurplusDisagrees(v: Volume, i: nat)
    requires Mountable(v) && i < FS_DIR_ENTRIES && Surplus(v, i) > 0
    requires forall j :: 0 <= j < FS_DIR_ENTRIES && j != i ==> SlotOk(v, j)
    requires Countable(v)
    ensures !RefinesMap(v)
  {
    CountableShaped(v);
    SurplusUsed(v, i);
    var name := AnotherName(v, i);
    hide Surplus, SurplusUpTo, Countable, Chain, FreeCount, NamesOk, SlotOk, Mountable, RefinesMap, Files, SlotFor;
    hide Capacity;
    var s := SlotFor(v.dir, name);
    var room := FreeBlocks(v) + |v.ChainOf(s)|;
    RoomBound(v, s);
    var data := Zeros(512 * (room + 1));
    assert BlocksFor(|data|) == room + 1;
    SurplusOfTwo(v, i, s, |v.dir|);
    MapGrantsIff(v, name, |data|);
    TooMuch(v, name, data);
  }

  lemma SurplusUsed(v: Volume, i: nat)
    requires i < |v.dir| && Surplus(v, i) > 0
    ensures Used(v.dir[i])
  {
  }

  /** A write that is refused and that the map grants. */
  lemma TooMuch(v: Volume, name: CString, data: seq<byte>)
    requires v.Shaped() && Mountable(v) && NamesOk(v) && 0 < |data| < 0x1_0000_0000 && ValidName(name)
    requires SlotFor(v.dir, name) >= 0 && SlotOk(v, SlotFor(v.dir, name))
    requires BlocksFor(|data|) > FreeBlocks(v) + |v.ChainOf(SlotFor(v.dir, name))|
    requires name in Files(v) || |Files(v)| != FS_DIR_ENTRIES
    requires BlocksFor(|data|) + TotalBlocks(Files(v) - {name}) <= Capacity(v)
    ensures !RefinesMap(v)
  {
    WriteSucceedsIff(v, name, data);
    RefusedWrite(v, name, data);
    hide SlotOk, Mountable, Files, Capacity, NamesOk, TotalBlocks, FsWrite, Chain, FreeCount;
    RunOne(v, Write(name, data));
    assert !ActsAsMap(v, [Write(name, data)]);
  }

  /** Exactly on which consistent volumes every run acts as the bounded map does. */
  lemma RunsAgreeIff(v: Volume)
    requires Mountable(v)
    requires Inv(v) && Synced(v)
    ensures RefinesMap(v) <==> Fitting(v)
  {
    if Fitting(v) {
      forall ops | Callable(ops) ensures ActsAsMap(v, ops) {
        RunRefines(v, ops);
      }
    } else {
      var i :| 0 <= i < FS_DIR_ENTRIES && Used(v.dir[i]) && |v.ChainOf(i)| > BlocksFor(v.dir[i].size);
      InvIsCountable(v);
      SurplusDisagrees(v, i);
    }
  }

  // --- formatting -----------------------------------------------------------

  /** The platter after fs_format, region by region. */
  lemma FormattedSectors(disk: seq<Sector>, sb: Superblock)
    requires WellPlaced(sb, |disk|)
    ensures var after := Replay(disk, FormatLog(sb));
      && |after| == |disk| && after[FS_START_LBA] == SuperblockSector(sb)
      && (forall s :: 0 <= s < sb.fatSectors ==> after[sb.fatStart + s] == FatSector(EmptyFat(sb), s))
      && (forall s :: 0 <= s < 4 ==> after[sb.dirStart + s] == DirSector(EmptyDir(), s))
  {
    hide FatSector, DirSector, SuperblockSector, Replay;
    var a, b := EmptyFatLog(sb), DirLog(sb, EmptyDir());
    var last := [SectorWrite(FS_START_LBA, SuperblockSector(sb))];
    ReplayTwoRegions(disk, a, sb.fatStart, b, sb.dirStart);
    ReplayConcat(disk, a + b, last);
    ReplayConsecutive(Replay(disk, a + b), last, FS_START_LBA);
    FormatParts(sb);
    assert last[0].data == SuperblockSector(sb);
  }

  lemma FormatParts(sb: Superblock)
    ensures var a, b := EmptyFatLog(sb), DirLog(sb, EmptyDir());
      && (forall s :: 0 <= s < sb.fatSectors ==> a[s].data == FatSector(EmptyFat(sb), s))
      && (forall s :: 0 <= s < 4 ==> b[s].data == DirSector(EmptyDir(), s))
  {
    hide FatSector, DirSector;
  }

  lemma FormattedDisk(disk: seq<Sector>)
    requires FS_START_LBA + 16 < |disk| <= MAX_SECTORS
    ensures FormatVolume(disk).Shaped() && Synced(FormatVolume(disk))
  {
    hide FatSector, DirSector, Geometry, SuperblockSector, Replay, FormatLog;
    GeometryWellPlaced(|disk|);
    FormattedSectors(disk, Geometry(|disk|));
  }

  lemma {:induction false} NoFilesUpTo(v: Volume, n: nat)
    requires n <= |v.dir| && forall i :: 0 <= i < n ==> !Used(v.dir[i])
    ensures FilesUpTo(v, n) == map[]
    decreases n
  {
    if n > 0 {
      NoFilesUpTo(v, n - 1);
    }
  }

  /** An empty directory over an all-free table satisfies the invariant. */
  lemma EmptyIsGood(v: Volume)
    requires v.Shaped() && Synced(v)
    requires forall i :: 0 <= i < |v.dir| ==> !Used(v.dir[i])
    requires forall x :: 0 <= x < |v.fat| ==> v.fat[x] == FAT_FREE
    ensures Good(v) && Files(v) == map[] && FreeBlocks(v) == Capacity(v) == v.sb.dataBlocks
  {
    assert forall i :: 0 <= i < FS_DIR_ENTRIES ==> SlotOk(v, i);
    NoFilesUpTo(v, |v.dir|);
    FreeCountBound(v.fat, 1, v.sb.dataBlocks);
    CapacityFullIff(v);
  }

  /** A formatted volume satisfies the invariant, holds no file, and has every
      sector behind the metadata as a free block, up to 65534: on a drive of 16 MB
      these are 32442. */
  lemma FormatIsEmpty(disk: seq<Sector>)
    requires 209 < |disk| <= 0x1000_0000
    ensures var v := FormatVolume(disk);
      && Good(v) && Files(v) == map[] && FreeBlocks(v) == Capacity(v) == v.sb.dataBlocks
      && v.sb.dataBlocks == Min(|disk| - 198 - (|disk| - 193 + 255) / 256, 65534)
    ensures |disk| == 32768 ==> FreeBlocks(FormatVolume(disk)) == 32442
  {
    hide Good, Files, FreeCount, Capacity, Geometry, FormatLog, Replay;
    FormattedDisk(disk);
    EmptyIsGood(FormatVolume(disk));
    FormatDivides(|disk|);
  }
}
