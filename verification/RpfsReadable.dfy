/** What writing and deleting do on any volume that can be read, consistent or
    not: links stay in range, and files whose blocks are out of reach of the
    blocks dropped and taken read as before. */
module RpfsReadable {
  import opened Bytes
  import opened RpfsLayout
  import opened RpfsFat
  import opened RpfsVolume
  import opened RpfsOps

  // --- links stay in range --------------------------------------------------

  lemma FreedKeepsLinks(v: Volume, i: nat)
    requires v.Shaped() && i < FS_DIR_ENTRIES && LinksOk(v.fat, v.sb.dataBlocks)
    ensures LinksOk(FreedSlot(v, i), v.sb.dataBlocks)
  {
    hide Reachable, SlotOk;
  }

  lemma LinkedKeepsLinks(fat: seq<u16>, c: seq<u16>, blocks: nat)
    requires blocks < |fat| && LinksOk(fat, blocks) && Ascending(c)
    requires forall k :: 0 <= k < |c| ==> 1 <= c[k] <= blocks
    ensures LinksOk(Linked(fat, c), blocks)
  {
    LinkedShape(fat, c);
    hide Linked;
    var after := Linked(fat, c);
    forall x | 0 <= x < |after| && IsBlock(after[x]) ensures after[x] <= blocks {
      if x in c {
        var k :| 0 <= k < |c| && c[k] == x;
        assert after[c[k]] == Next(c, k);
      }
    }
  }

  /** A volume with one entry changed can still be read. */
  lemma EntryKeepsReadable(v: Volume, w: Volume, i: nat, e: Dirent)
    requires Readable(v) && w.Shaped() && w.sb == v.sb && LinksOk(w.fat, w.sb.dataBlocks)
    requires i < FS_DIR_ENTRIES && w.dir == v.dir[i := e]
    requires Used(e) ==> |Text(e.name)| <= FS_MAX_NAME && (IsBlock(e.first) ==> e.first <= v.sb.dataBlocks)
    ensures Readable(w)
  {
    hide Text, LinksOk;
  }

  // --- what other files read ------------------------------------------------

  /** Reading `n` gives the same in both volumes, however long the buffer. */
  ghost predicate ReadsAlike(v: Volume, w: Volume, n: CString) {
    forall maxlen: nat :: FsRead(w, n, maxlen) == FsRead(v, n, maxlen)
  }

  /** Block `x` can be reached from the entry of slot `i`. */
  ghost predicate Reaches(v: Volume, i: nat, x: u16)
    requires i < |v.dir|
  {
    Used(v.dir[i]) && Reachable(v.fat, v.dir[i].first, x)
  }

  /** No block can be reached both from the file `n` and from slot `i`. */
  ghost predicate Apart(v: Volume, i: nat, n: CString)
    requires i < |v.dir|
  {
    Find(v.dir, n) >= 0 ==> forall x: u16 :: Reaches(v, Find(v.dir, n), x) ==> !Reaches(v, i, x)
  }

  /** No block that can be reached from the file `n` is free. */
  ghost predicate Holds(v: Volume, n: CString) {
    Find(v.dir, n) >= 0 ==> forall x: u16 :: Reaches(v, Find(v.dir, n), x) && x < |v.fat| ==> v.fat[x] != FAT_FREE
  }

  /** On a consistent volume all other files are like that. */
  lemma ConsistentApart(v: Volume, i: nat, n: CString)
    requires Inv(v) && i < FS_DIR_ENTRIES && Find(v.dir, n) != i
    ensures Apart(v, i, n) && Holds(v, n)
  {
    var j := Find(v.dir, n);
    if j >= 0 {
      assert SlotOk(v, i) && SlotOk(v, j);
      hide Inv, Reaches, Find, Chain, SlotOk;
      forall x: u16 | Reaches(v, j, x) ensures !Reaches(v, i, x) && (x < |v.fat| ==> v.fat[x] != FAT_FREE) {
        SlotReaches(v, i, x);
        SlotReaches(v, j, x);
        InvDisjoint(v, j, i, x);
      }
    }
  }

  /** From a well-formed chain exactly its blocks are reached, none of them free. */
  lemma SlotReaches(v: Volume, i: nat, x: u16)
    requires v.Shaped() && i < FS_DIR_ENTRIES && SlotOk(v, i)
    ensures Reaches(v, i, x) <==> x in v.ChainOf(i)
    ensures x in v.ChainOf(i) && x < |v.fat| ==> v.fat[x] != FAT_FREE
  {
    hide Reachable, Chain;
    if Used(v.dir[i]) {
      ReachableChain(v.fat, v.sb.dataBlocks, v.dir[i].first, v.ChainOf(i), x);
      if x in v.ChainOf(i) {
        var k :| 0 <= k < |v.ChainOf(i)| && v.ChainOf(i)[k] == x;
        assert v.fat[v.ChainOf(i)[k]] == Next(v.ChainOf(i), k);
      }
    }
  }

  lemma InvDisjoint(v: Volume, i: nat, j: nat, x: u16)
    requires Inv(v) && i < FS_DIR_ENTRIES && j < FS_DIR_ENTRIES && i != j && x in v.ChainOf(i)
    ensures x !in v.ChainOf(j)
  {
    hide Chain, SlotOk, NamesOk;
  }

  /** Blocks that can be reached stay in the data region. */
  lemma {:induction false} FollowInRange(fat: seq<u16>, blocks: nat, b: u16, n: nat)
    requires blocks < |fat| && LinksOk(fat, blocks) && (IsBlock(b) ==> b <= blocks)
    ensures IsBlock(Follow(fat, b, n)) ==> 1 <= Follow(fat, b, n) <= blocks
    decreases n
  {
    if n > 0 && IsBlock(b) {
      FollowInRange(fat, blocks, fat[b], n - 1);
    }
  }

  lemma ReachesInRange(v: Volume, i: nat, x: u16)
    requires Readable(v) && i < FS_DIR_ENTRIES && Reaches(v, i, x)
    ensures IsBlock(x) && 1 <= x <= v.sb.dataBlocks < |v.fat| && 0 <= BlockLba(v.sb, x) < |v.disk|
  {
    var n: nat :| Follow(v.fat, v.dir[i].first, n) == x;
    FollowInRange(v.fat, v.sb.dataBlocks, v.dir[i].first, n);
  }

  lemma ReachableNext(fat: seq<u16>, b: u16, x: u16)
    requires IsBlock(b) && b < |fat|
    ensures Reachable(fat, b, b)
    ensures Reachable(fat, fat[b], x) ==> Reachable(fat, b, x)
  {
    assert Follow(fat, b, 0) == b;
    if Reachable(fat, fat[b], x) {
      var n: nat :| Follow(fat, fat[b], n) == x;
      assert Follow(fat, b, n + 1) == x;
    }
  }

  /** The bytes met along the links are the same if those links and sectors are. */
  lemma {:induction false} WalkSame(v: Volume, w: Volume, b: u16, size: nat)
    requires w.sb == v.sb && |w.fat| == |v.fat| && |w.disk| == |v.disk|
    requires forall x: u16 :: Reachable(v.fat, b, x) && x < |v.fat| && 0 <= BlockLba(v.sb, x) < |v.disk| ==>
      w.fat[x] == v.fat[x] && w.disk[BlockLba(v.sb, x)] == v.disk[BlockLba(v.sb, x)]
    ensures Walk(w, b, size) == Walk(v, b, size)
    decreases size
  {
    hide Reachable;
    if !(size == 0 || !IsBlock(b) || b >= |v.fat| || !(0 <= BlockLba(v.sb, b) < |v.disk|)) {
      ReachableNext(v.fat, b, b);
      forall x: u16 | Reachable(v.fat, v.fat[b], x) && x < |v.fat| && 0 <= BlockLba(v.sb, x) < |v.disk|
        ensures w.fat[x] == v.fat[x] && w.disk[BlockLba(v.sb, x)] == v.disk[BlockLba(v.sb, x)]
      {
        ReachableNext(v.fat, b, x);
      }
      WalkSame(v, w, v.fat[b], size - Min(size, 512));
    }
  }

  lemma {:induction false} FindFromSkips(dir: seq<Dirent>, i: nat, e: Dirent, k: nat, n: CString)
    requires i < |dir| && k <= |dir|
    requires (Used(dir[i]) ==> Text(dir[i].name) != n) && (Used(e) ==> Text(e.name) != n)
    ensures FindFrom(dir[i := e], k, n) == FindFrom(dir, k, n)
    decreases |dir| - k
  {
    hide Text;
    if k < |dir| {
      FindFromSkips(dir, i, e, k + 1, n);
    }
  }

  /** Changing slot `i` and blocks the file `n` does not reach leaves it alone. */
  lemma UnreachedKeepsRead(v: Volume, w: Volume, i: nat, e: Dirent, n: CString)
    requires Readable(v) && w.Shaped() && w.sb == v.sb && |w.disk| == |v.disk|
    requires i < FS_DIR_ENTRIES && w.dir == v.dir[i := e]
    requires (Used(v.dir[i]) ==> Text(v.dir[i].name) != n) && (Used(e) ==> Text(e.name) != n)
    requires var j := Find(v.dir, n);
      j >= 0 ==> forall x: u16 :: Reaches(v, j, x) && 1 <= x <= v.sb.dataBlocks < |v.fat| ==>
        w.fat[x] == v.fat[x] && w.disk[BlockLba(v.sb, x)] == v.disk[BlockLba(v.sb, x)]
    ensures ReadsAlike(v, w, n)
  {
    FindFromSkips(v.dir, i, e, 0, n);
    var j := Find(v.dir, n);
    if j >= 0 {
      assert w.dir[j] == v.dir[j];
      forall x: u16 | Reachable(v.fat, v.dir[j].first, x)
        ensures 1 <= x <= v.sb.dataBlocks < |v.fat| && w.fat[x] == v.fat[x]
        ensures w.disk[BlockLba(v.sb, x)] == v.disk[BlockLba(v.sb, x)]
      {
        assert Reaches(v, j, x);
        ReachesInRange(v, j, x);
      }
      hide Reachable, Walk, FindFrom, Readable;
      forall maxlen: nat ensures FsRead(w, n, maxlen) == FsRead(v, n, maxlen) {
        WalkSame(v, w, v.dir[j].first, Min(v.dir[j].size, maxlen));
      }
    }
  }

  /** Deleting slot `i`: files apart from it read as before. */
  lemma DropKeepsRead(v: Volume, w: Volume, i: nat, n: CString)
    requires Readable(v) && w.Shaped() && w.sb == v.sb && |w.disk| == |v.disk| && i < FS_DIR_ENTRIES
    requires w.fat == FreedSlot(v, i) && w.dir == v.dir[i := BLANK]
    requires forall b: u16 :: 1 <= b <= v.sb.dataBlocks ==> w.disk[BlockLba(v.sb, b)] == v.disk[BlockLba(v.sb, b)]
    requires Used(v.dir[i]) && Text(v.dir[i].name) != n && Apart(v, i, n)
    ensures ReadsAlike(v, w, n)
  {
    hide Reachable, Readable, SlotOk, Text, Find;
    UnreachedKeepsRead(v, w, i, BLANK, n);
  }

  /** Writing slot `i`: files apart from it that hold no free block read as before,
      whatever part of the new chain is linked and written. */
  lemma WriteKeepsRead(v: Volume, w: Volume, name: CString, c: seq<u16>, e: Dirent, n: CString)
    requires Readable(v) && w.Shaped() && w.sb == v.sb && |w.disk| == |v.disk|
    requires ValidName(name) && SlotFor(v.dir, name) >= 0 && n != name
    requires Ascending(c) && forall k :: 0 <= k < |c| ==>
      1 <= c[k] <= v.sb.dataBlocks < |v.fat| && DroppedFat(v, name)[c[k]] == FAT_FREE
    requires w.fat == Linked(DroppedFat(v, name), c) && w.dir == v.dir[SlotFor(v.dir, name) := e]
    requires Used(e) && Text(e.name) == name
    requires forall b: u16 :: 1 <= b <= v.sb.dataBlocks < |v.fat| && DroppedFat(v, name)[b] != FAT_FREE ==>
      w.disk[BlockLba(v.sb, b)] == v.disk[BlockLba(v.sb, b)]
    requires Apart(v, SlotFor(v.dir, name), n) && Holds(v, n)
    ensures ReadsAlike(v, w, n)
  {
    var i, j := SlotFor(v.dir, name), Find(v.dir, n);
    SlotForOther(v.dir, name, n);
    LinkedShape(DroppedFat(v, name), c);
    hide Reachable, Readable, Text, Find, Linked, DroppedFat, SlotFor, FreedSlot;
    if j >= 0 {
      forall x: u16 | Reaches(v, j, x) && 1 <= x <= v.sb.dataBlocks < |v.fat|
        ensures w.fat[x] == v.fat[x] && w.disk[BlockLba(v.sb, x)] == v.disk[BlockLba(v.sb, x)]
      {
        HeldBlock(v, name, n, x);
      }
    }
    UnreachedKeepsRead(v, w, i, e, n);
  }

  /** A block of such a file is not free once the chain is dropped either. */
  lemma HeldBlock(v: Volume, name: CString, n: CString, x: u16)
    requires v.Shaped() && SlotFor(v.dir, name) >= 0 && Find(v.dir, n) >= 0 && x < |v.fat|
    requires Apart(v, SlotFor(v.dir, name), n) && Holds(v, n) && Reaches(v, Find(v.dir, n), x)
    ensures DroppedFat(v, name)[x] == v.fat[x] != FAT_FREE
  {
    hide Reaches, Find, SlotFor, SlotOk;
    NotDropped(v, SlotFor(v.dir, name), x);
  }

  lemma NotDropped(v: Volume, i: nat, x: u16)
    requires v.Shaped() && i < FS_DIR_ENTRIES && x < |v.fat| && !Reaches(v, i, x)
    ensures FreedSlot(v, i)[x] == v.fat[x]
  {
    hide Reachable, SlotOk;
  }

  lemma SlotForOther(dir: seq<Dirent>, name: CString, n: CString)
    requires |dir| == FS_DIR_ENTRIES && SlotFor(dir, name) >= 0 && n != name
    ensures Used(dir[SlotFor(dir, name)]) ==> Text(dir[SlotFor(dir, name)].name) != n
  {
  }
}
