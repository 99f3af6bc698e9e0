/** A mounted RPFS volume as a value: what the operations compute, the
    invariant of the whole table, and the map of files it stands for. */
module RpfsVolume {
  import opened Bytes
  import opened Drives
  import opened RpfsLayout
  import opened RpfsFat

  /** The cached metadata together with the platter behind it. */
  datatype Volume = Volume(sb: Superblock, fat: seq<u16>, dir: seq<Dirent>, disk: seq<Sector>)
  {
    ghost predicate Shaped() {
      && WellPlaced(sb, |disk|)
      && |fat| == sb.fatSectors * 256
      && |dir| == FS_DIR_ENTRIES
    }

    /** The chain of directory slot `i`; an unused slot owns no blocks. */
    ghost function ChainOf(i: nat): seq<u16>
      requires i < |dir|
    {
      if Used(dir[i]) then Chain(fat, dir[i].first) else []
    }

    /** The bytes a full read of slot `i` delivers. */
    ghost function ContentOf(i: nat): seq<byte>
      requires i < |dir|
    {
      Gather(disk, sb, ChainOf(i), dir[i].size)
    }
  }

  predicate Used(e: Dirent) {
    e.used != 0
  }

  function BlocksFor(size: nat): nat {
    (size + 512 - 1) / 512
  }

  /** The sector of data block `b`; blocks are numbered from 1. */
  function BlockLba(sb: Superblock, b: u16): int {
    sb.dataStart as int + b as int - 1
  }

  /** At most `size` bytes from the blocks of `c`, in order. */
  ghost function Gather(disk: seq<Sector>, sb: Superblock, c: seq<u16>, size: nat): seq<byte> {
    if size == 0 || |c| == 0 || !(0 <= BlockLba(sb, c[0]) < |disk|) then []
    else
      var n := Min(size, 512);
      disk[BlockLba(sb, c[0])][..n] + Gather(disk, sb, c[1..], size - n)
  }

  // --- directory lookup -----------------------------------------------------

  /** The first used slot at or after `i` holding `name`, or -1. */
  function FindFrom(dir: seq<Dirent>, i: nat, name: CString): (r: int)
    requires i <= |dir|
    ensures r == -1 || i <= r < |dir|
    ensures r >= 0 ==> Used(dir[r]) && Text(dir[r].name) == name
    ensures forall j :: i <= j < (if r < 0 then |dir| else r) && Used(dir[j]) ==> Text(dir[j].name) != name
    decreases |dir| - i
  {
    if i == |dir| then -1
    else if Used(dir[i]) && Text(dir[i].name) == name then i
    else FindFrom(dir, i + 1, name)
  }

  function Find(dir: seq<Dirent>, name: CString): (r: int)
    ensures r == -1 || 0 <= r < |dir|
    ensures r >= 0 ==> Used(dir[r]) && Text(dir[r].name) == name
    ensures forall j :: 0 <= j < (if r < 0 then |dir| else r) && Used(dir[j]) ==> Text(dir[j].name) != name
  {
    FindFrom(dir, 0, name)
  }

  /** The first unused slot at or after `i`, or -1. */
  function FreeSlotFrom(dir: seq<Dirent>, i: nat): (r: int)
    requires i <= |dir|
    ensures r == -1 || i <= r < |dir|
    ensures r >= 0 ==> !Used(dir[r])
    ensures forall j :: i <= j < (if r < 0 then |dir| else r) ==> Used(dir[j])
    decreases |dir| - i
  {
    if i == |dir| then -1 else if !Used(dir[i]) then i else FreeSlotFrom(dir, i + 1)
  }

  // --- the invariant --------------------------------------------------------

  ghost predicate NamesOk(v: Volume) {
    && (forall i :: 0 <= i < |v.dir| && Used(v.dir[i]) ==> |Text(v.dir[i].name)| <= FS_MAX_NAME)
    && (forall i, j :: 0 <= i < j < |v.dir| && Used(v.dir[i]) && Used(v.dir[j]) ==>
          Text(v.dir[i].name) != Text(v.dir[j].name))
  }

  ghost predicate SlotOk(v: Volume, i: nat)
    requires v.Shaped() && i < FS_DIR_ENTRIES
  {
    Used(v.dir[i]) ==> IsChain(v.fat, v.sb.dataBlocks, v.dir[i].first, v.ChainOf(i))
  }

  /** Chains of different slots share no block. */
  ghost predicate ChainsDisjoint(v: Volume)
    requires v.Shaped()
  {
    forall i, j, x :: 0 <= i < FS_DIR_ENTRIES && 0 <= j < FS_DIR_ENTRIES && i != j && x in v.ChainOf(i) ==>
      x !in v.ChainOf(j)
  }

  /** Links stay in the data region. */
  ghost predicate LinksOk(fat: seq<u16>, blocks: nat) {
    forall x :: 0 <= x < |fat| && IsBlock(fat[x]) ==> fat[x] <= blocks
  }

  /** The whole-table invariant: every used entry has a complete ascending
      chain, chains are disjoint, links stay in range, names are unique. Blocks
      may be taken without lying on any chain: those are lost, not dangerous. */
  ghost predicate Inv(v: Volume) {
    && v.Shaped()
    && NamesOk(v)
    && (forall i :: 0 <= i < FS_DIR_ENTRIES ==> SlotOk(v, i))
    && ChainsDisjoint(v)
    && LinksOk(v.fat, v.sb.dataBlocks)
  }

  ghost predicate Owned(v: Volume, x: nat)
    requires v.Shaped()
  {
    exists i :: 0 <= i < FS_DIR_ENTRIES && x in v.ChainOf(i)
  }

  /** No block is lost. */
  ghost predicate Tight(v: Volume)
    requires v.Shaped()
  {
    forall x :: 1 <= x <= v.sb.dataBlocks && v.fat[x] != FAT_FREE ==> Owned(v, x)
  }

  /** All that reading needs: links and first blocks that stay in the data
      region, and names that end inside their field. */
  ghost predicate Readable(v: Volume) {
    && v.Shaped()
    && LinksOk(v.fat, v.sb.dataBlocks)
    && (forall i :: 0 <= i < FS_DIR_ENTRIES && Used(v.dir[i]) ==> |Text(v.dir[i].name)| <= FS_MAX_NAME)
    && (forall i :: 0 <= i < FS_DIR_ENTRIES && Used(v.dir[i]) && IsBlock(v.dir[i].first) ==>
          v.dir[i].first <= v.sb.dataBlocks)
  }

  lemma InvIsReadable(v: Volume)
    requires Inv(v)
    ensures Readable(v)
  {
    forall i | 0 <= i < FS_DIR_ENTRIES && Used(v.dir[i]) && IsBlock(v.dir[i].first)
      ensures v.dir[i].first <= v.sb.dataBlocks
    {
      assert SlotOk(v, i);
    }
  }

  /** Every file has all the blocks its size needs. */
  ghost predicate Complete(v: Volume)
    requires v.Shaped()
  {
    forall i :: 0 <= i < FS_DIR_ENTRIES && Used(v.dir[i]) ==> |v.ChainOf(i)| == BlocksFor(v.dir[i].size)
  }

  /** No file has more blocks than its size needs; fewer it may have. */
  ghost predicate Fitting(v: Volume)
    requires v.Shaped()
  {
    forall i :: 0 <= i < FS_DIR_ENTRIES && Used(v.dir[i]) ==> |v.ChainOf(i)| <= BlocksFor(v.dir[i].size)
  }

  /** Replacing one slot and its chain: everything an operation does to the
      metadata is an instance of this step. */
  ghost predicate ReplacesSlot(v: Volume, w: Volume, i: nat, e: Dirent, c: seq<u16>)
    requires v.Shaped() && i < FS_DIR_ENTRIES
  {
    var cleared := Cleared(v.fat, v.ChainOf(i));
    && w.Shaped() && w.sb == v.sb && w.dir == v.dir[i := e]
    && Ascending(c)
    && (forall k :: 0 <= k < |c| ==> 1 <= c[k] <= v.sb.dataBlocks && cleared[c[k]] == FAT_FREE)
    && w.fat == Linked(cleared, c)
    && (if Used(e) then
          && e.first == Head(c)
          && |Text(e.name)| <= FS_MAX_NAME
          && forall j :: 0 <= j < FS_DIR_ENTRIES && j != i && Used(v.dir[j]) ==> Text(v.dir[j].name) != Text(e.name)
        else |c| == 0)
  }

  /** What the replaced table holds, block by block. */
  lemma ReplacedFat(v: Volume, w: Volume, i: nat, e: Dirent, c: seq<u16>)
    requires v.Shaped() && i < FS_DIR_ENTRIES && ReplacesSlot(v, w, i, e, c)
    ensures forall k :: 0 <= k < |c| ==> w.fat[c[k]] == Next(c, k)
    ensures forall x :: 0 <= x < |v.fat| && x !in c ==> w.fat[x] == if x in v.ChainOf(i) then FAT_FREE else v.fat[x]
  {
    LinkedShape(Cleared(v.fat, v.ChainOf(i)), c);
  }

  /** Blocks of other files are neither in the old nor in the new chain. */
  lemma OthersKeepBlocks(v: Volume, w: Volume, i: nat, e: Dirent, c: seq<u16>, j: nat, x: u16)
    requires Inv(v) && i < FS_DIR_ENTRIES && ReplacesSlot(v, w, i, e, c)
    requires j < FS_DIR_ENTRIES && j != i && x in v.ChainOf(j)
    ensures x < |v.fat| && x !in c && x !in v.ChainOf(i) && w.fat[x] == v.fat[x]
  {
    ReplacedFat(v, w, i, e, c);
    assert SlotOk(v, j);
    var k :| 0 <= k < |v.ChainOf(j)| && v.ChainOf(j)[k] == x;
    assert v.fat[x] == Next(v.ChainOf(j), k) != FAT_FREE;
    assert x !in v.ChainOf(i);
  }

  lemma OthersKeepChain(v: Volume, w: Volume, i: nat, e: Dirent, c: seq<u16>, j: nat)
    requires Inv(v) && i < FS_DIR_ENTRIES && ReplacesSlot(v, w, i, e, c)
    requires j < FS_DIR_ENTRIES && j != i
    ensures w.ChainOf(j) == v.ChainOf(j)
    ensures SlotOk(w, j)
  {
    var d := v.ChainOf(j);
    assert SlotOk(v, j);
    if Used(v.dir[j]) {
      forall k | 0 <= k < |d| ensures w.fat[d[k]] == Next(d, k) {
        OthersKeepBlocks(v, w, i, e, c, j, d[k]);
      }
      ChainUnique(w.fat, w.sb.dataBlocks, w.dir[j].first, d);
    }
  }

  lemma ReplaceKeepsDisjoint(v: Volume, w: Volume, i: nat, e: Dirent, c: seq<u16>)
    requires Inv(v) && i < FS_DIR_ENTRIES && ReplacesSlot(v, w, i, e, c)
    requires w.ChainOf(i) == c
    requires forall j :: 0 <= j < FS_DIR_ENTRIES && j != i ==> w.ChainOf(j) == v.ChainOf(j)
    ensures ChainsDisjoint(w)
  {
    forall p, q, x | 0 <= p < FS_DIR_ENTRIES && 0 <= q < FS_DIR_ENTRIES && p != q && x in w.ChainOf(p)
      ensures x !in w.ChainOf(q)
    {
      if q == i {
        OthersKeepBlocks(v, w, i, e, c, p, x);
      } else if x in v.ChainOf(q) {
        OthersKeepBlocks(v, w, i, e, c, q, x);
      }
    }
  }

  lemma ReplaceKeepsLinks(v: Volume, w: Volume, i: nat, e: Dirent, c: seq<u16>)
    requires Inv(v) && i < FS_DIR_ENTRIES && ReplacesSlot(v, w, i, e, c)
    ensures LinksOk(w.fat, w.sb.dataBlocks)
  {
    ReplacedFat(v, w, i, e, c);
    forall x | 0 <= x < |w.fat| && IsBlock(w.fat[x]) ensures w.fat[x] <= w.sb.dataBlocks {
      if x in c {
        var k :| 0 <= k < |c| && c[k] == x;
        assert w.fat[c[k]] == Next(c, k);
      }
    }
  }

  lemma ReplaceSetsChain(v: Volume, w: Volume, i: nat, e: Dirent, c: seq<u16>)
    requires v.Shaped() && i < FS_DIR_ENTRIES && ReplacesSlot(v, w, i, e, c)
    ensures w.ChainOf(i) == c && SlotOk(w, i)
  {
    ReplacedFat(v, w, i, e, c);
    if Used(e) {
      ChainUnique(w.fat, w.sb.dataBlocks, e.first, c);
    }
  }

  /** Replacing a slot keeps the invariant, gives the slot its new chain and
      leaves every other chain alone. */
  lemma ReplaceKeepsInv(v: Volume, w: Volume, i: nat, e: Dirent, c: seq<u16>)
    requires Inv(v) && i < FS_DIR_ENTRIES && ReplacesSlot(v, w, i, e, c)
    ensures Inv(w)
    ensures w.ChainOf(i) == c
    ensures forall j :: 0 <= j < FS_DIR_ENTRIES && j != i ==> w.ChainOf(j) == v.ChainOf(j)
  {
    ReplaceSetsChain(v, w, i, e, c);
    forall j | 0 <= j < FS_DIR_ENTRIES && j != i
      ensures w.ChainOf(j) == v.ChainOf(j) && SlotOk(w, j)
    {
      OthersKeepChain(v, w, i, e, c, j);
    }
    ReplaceKeepsDisjoint(v, w, i, e, c);
    ReplaceKeepsLinks(v, w, i, e, c);
  }

  // --- reading --------------------------------------------------------------

  /** The bytes fs_read copies when it follows links from `b`. */
  ghost function Walk(v: Volume, b: u16, size: nat): seq<byte>
    decreases size
  {
    if size == 0 || !IsBlock(b) || b >= |v.fat| || !(0 <= BlockLba(v.sb, b) < |v.disk|) then []
    else
      var n := Min(size, 512);
      v.disk[BlockLba(v.sb, b)][..n] + Walk(v, v.fat[b], size - n)
  }

  datatype ReadResult = NotFound | Found(size: u32, bytes: seq<byte>)

  /** fs_read on a fault-free drive: the size in the entry, and at most `maxlen` bytes. */
  ghost function FsRead(v: Volume, name: CString, maxlen: nat): ReadResult {
    var i := Find(v.dir, name);
    if i < 0 then NotFound
    else Found(v.dir[i].size, Walk(v, v.dir[i].first, Min(v.dir[i].size, maxlen)))
  }

  lemma {:induction false} WalkIsGather(v: Volume, c: seq<u16>, size: nat)
    requires v.Shaped() && IsChain(v.fat, v.sb.dataBlocks, Head(c), c)
    ensures Walk(v, Head(c), size) == Gather(v.disk, v.sb, c, size)
    decreases |c|
  {
    if |c| > 0 && size > 0 {
      ChainTail(v.fat, v.sb.dataBlocks, c);
      var n := Min(size, 512);
      WalkIsGather(v, c[1..], size - n);
      if |c| == 1 {
        assert Walk(v, FAT_END, size - n) == [];
      }
    }
  }

  lemma {:induction false} GatherPrefix(disk: seq<Sector>, sb: Superblock, c: seq<u16>, size: nat, less: nat)
    requires less <= size
    ensures var all := Gather(disk, sb, c, size);
            Gather(disk, sb, c, less) == all[..Min(less, |all|)]
    decreases |c|
  {
    if less > 0 && |c| > 0 && 0 <= BlockLba(sb, c[0]) < |disk| {
      var n, m := Min(size, 512), Min(less, 512);
      GatherPrefix(disk, sb, c[1..], size - n, less - m);
    }
  }

  lemma {:induction false} GatherLength(disk: seq<Sector>, sb: Superblock, c: seq<u16>, size: nat)
    requires forall k :: 0 <= k < |c| ==> 0 <= BlockLba(sb, c[k]) < |disk|
    ensures |Gather(disk, sb, c, size)| == Min(size, 512 * |c|)
    decreases |c|
  {
    if size > 0 && |c| > 0 {
      GatherLength(disk, sb, c[1..], size - Min(size, 512));
    }
  }

  /** A file's bytes depend only on the sectors of its own chain. */
  lemma {:induction false} GatherFrame(d1: seq<Sector>, d2: seq<Sector>, sb: Superblock, c: seq<u16>, size: nat)
    requires |d1| == |d2|
    requires forall k :: 0 <= k < |c| && 0 <= BlockLba(sb, c[k]) < |d1| ==>
      d1[BlockLba(sb, c[k])] == d2[BlockLba(sb, c[k])]
    ensures Gather(d1, sb, c, size) == Gather(d2, sb, c, size)
    decreases |c|
  {
    if size > 0 && |c| > 0 {
      GatherFrame(d1, d2, sb, c[1..], size - Min(size, 512));
    }
  }

  /** Reading delivers the requested prefix of the file, and all of it when
      the file is complete and the buffer is large enough. */
  lemma ReadDeliversContent(v: Volume, name: CString, maxlen: nat)
    requires Inv(v)
    ensures var i := Find(v.dir, name);
      if i < 0 then FsRead(v, name, maxlen) == NotFound
      else
        var all := v.ContentOf(i);
        && FsRead(v, name, maxlen) == Found(v.dir[i].size, all[..Min(maxlen, |all|)])
        && |all| == Min(v.dir[i].size, 512 * |v.ChainOf(i)|)
  {
    var i := Find(v.dir, name);
    if i >= 0 {
      assert SlotOk(v, i);
      var c, size := v.ChainOf(i), v.dir[i].size;
      WalkIsGather(v, c, Min(size, maxlen));
      GatherPrefix(v.disk, v.sb, c, size, Min(size, maxlen));
      GatherLength(v.disk, v.sb, c, size);
    }
  }
}
