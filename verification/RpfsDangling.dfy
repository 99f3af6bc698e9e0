/** What goes wrong on a volume that is consistent but for one file, whose chain
    ends at a free block: another file that takes this block shares the rest of
    its chain, deleting the first frees blocks of the second, and some run does
    not act as the bounded map does. */
module RpfsDangling {
  import opened Bytes
  import opened Drives
  import opened RpfsLayout
  import opened RpfsFat
  import opened RpfsVolume
  import opened RpfsOps
  import opened RpfsFiles
  import opened RpfsSpace
  import opened RpfsHalves

  /** The table links the blocks of `d` one to the next, and the last is `x`,
      which is free. */
  ghost predicate LooseEnd(fat: seq<u16>, blocks: nat, d: seq<u16>, x: u16)
    requires blocks < |fat| && x < |fat|
  {
    && |d| > 0 && d[|d| - 1] == x && fat[x] == FAT_FREE && Ascending(d)
    && (forall k :: 0 <= k < |d| ==> 1 <= d[k] <= blocks)
    && (forall k :: 0 <= k < |d| - 1 ==> fat[d[k]] == d[k + 1])
  }

  /** The invariant holds but for slot `i`, whose chain ends at the free block `x`. */
  ghost predicate Dangles(m: Volume, i: nat, x: u16) {
    && m.Shaped() && NamesOk(m) && LinksOk(m.fat, m.sb.dataBlocks) && ChainsDisjoint(m)
    && i < FS_DIR_ENTRIES && Used(m.dir[i])
    && x < |m.fat| && LooseEnd(m.fat, m.sb.dataBlocks, m.ChainOf(i), x) && m.dir[i].first == m.ChainOf(i)[0]
    && forall j :: 0 <= j < FS_DIR_ENTRIES && j != i ==> SlotOk(m, j)
  }

  /** Following links ends at a free block as it does at an end mark. */
  lemma {:induction false} LooseChain(fat: seq<u16>, blocks: nat, d: seq<u16>, x: u16)
    requires blocks < |fat| && blocks <= MAX_BLOCKS && x < |fat| && LooseEnd(fat, blocks, d, x)
    ensures Chain(fat, d[0]) == d
    decreases |d|
  {
    hide LooseEnd;
    LooseTail(fat, blocks, d, x);
    if |d| > 1 {
      LooseChain(fat, blocks, d[1..], x);
    }
  }

  lemma LooseTail(fat: seq<u16>, blocks: nat, d: seq<u16>, x: u16)
    requires blocks < |fat| && blocks <= MAX_BLOCKS && x < |fat| && LooseEnd(fat, blocks, d, x)
    ensures |d| > 0 && d[0] < |fat| && IsBlock(d[0]) && (|d| == 1 ==> d == [x] && fat[x] == FAT_FREE)
    ensures |d| > 1 ==> fat[d[0]] == d[1] > d[0] && d == [d[0]] + d[1..] && LooseEnd(fat, blocks, d[1..], x)
  {
    hide Chain;
    var t := d[1..];
    assert forall k :: 0 <= k < |t| ==> t[k] == d[k + 1];
    assert |d| > 1 ==> Ascending(t);
  }

  lemma DanglesParts(m: Volume, i: nat, x: u16)
    requires Dangles(m, i, x)
    ensures m.Shaped() && NamesOk(m) && i < FS_DIR_ENTRIES && Used(m.dir[i]) && Countable(m)
    ensures 1 <= x <= m.sb.dataBlocks < |m.fat| && m.fat[x] == FAT_FREE
    ensures var d := m.ChainOf(i);
      && |d| > 0 && d[|d| - 1] == x && d[0] == m.dir[i].first && Ascending(d)
      && forall k :: 0 <= k < |d| ==> 1 <= d[k] <= m.sb.dataBlocks
    ensures forall j :: 0 <= j < FS_DIR_ENTRIES && j != i ==> SlotOk(m, j)
  {
    forall j, k | 0 <= j < FS_DIR_ENTRIES && 0 <= k < |m.ChainOf(j)|
      ensures 1 <= m.ChainOf(j)[k] <= m.sb.dataBlocks
    {
      assert j != i ==> SlotOk(m, j);
    }
  }

  // --- sharing --------------------------------------------------------------

  /** The links of the loose chain stay. */
  lemma LooseKept(m: Volume, w: Volume, i: nat, x: u16, s: nat, e: Dirent, c: seq<u16>, k: nat)
    requires Dangles(m, i, x) && s < FS_DIR_ENTRIES && s != i && ReplacesSlot(m, w, s, e, c)
    requires k < |m.ChainOf(i)| - 1
    ensures m.ChainOf(i)[k] < |w.fat| && w.fat[m.ChainOf(i)[k]] == m.ChainOf(i)[k + 1]
  {
    LooseLink(m, i, x, s, k);
    ReplacedFat(m, w, s, e, c);
    ChosenAreFree(m, w, s, e, c);
  }

  lemma LooseLink(m: Volume, i: nat, x: u16, s: nat, k: nat)
    requires Dangles(m, i, x) && s < FS_DIR_ENTRIES && s != i && k < |m.ChainOf(i)| - 1
    ensures m.ChainOf(i)[k] < |m.fat| && m.ChainOf(i)[k] !in m.ChainOf(s)
    ensures m.fat[m.ChainOf(i)[k]] == m.ChainOf(i)[k + 1] >= 1
  {
    hide Chain, NamesOk, LinksOk, SlotOk;
    assert m.ChainOf(i)[k] in m.ChainOf(i);
  }

  lemma ChosenAreFree(m: Volume, w: Volume, s: nat, e: Dirent, c: seq<u16>)
    requires m.Shaped() && s < FS_DIR_ENTRIES && ReplacesSlot(m, w, s, e, c)
    ensures |w.fat| == |m.fat| && Ascending(c)
    ensures forall y :: y in c ==> 1 <= y <= m.sb.dataBlocks < |m.fat| && Cleared(m.fat, m.ChainOf(s))[y] == FAT_FREE
  {
  }

  /** The blocks of `c` from `x` on. */
  ghost function FromBlock(c: seq<u16>, x: u16): seq<u16>
    requires x in c
  {
    c[IndexIn(c, x)..]
  }

  /** Once another file has taken block `x`, the two share its chain from there on. */
  lemma SharesFrom(m: Volume, w: Volume, i: nat, x: u16, s: nat, e: Dirent, c: seq<u16>)
    requires Dangles(m, i, x) && s < FS_DIR_ENTRIES && s != i && ReplacesSlot(m, w, s, e, c) && x in c
    ensures w.Shaped() && w.ChainOf(s) == c && w.dir[i] == m.dir[i]
    ensures var d := m.ChainOf(i); w.ChainOf(i) == d[..|d| - 1] + FromBlock(c, x)
    ensures SlotOk(w, i)
  {
    ReplaceSetsChain(m, w, s, e, c);
    KeptEntry(m, w, i, s, e, c);
    DanglesParts(m, i, x);
    ChosenLinks(m, w, s, e, c);
    LooseLinks(m, w, i, x, s, e, c);
    hide ReplacesSlot, Chain, Dangles, Linked, Cleared, NamesOk, SlotOk;
    SplicedChain(w.fat, m.sb.dataBlocks, m.ChainOf(i), c, IndexIn(c, x));
    var all := m.ChainOf(i)[..|m.ChainOf(i)| - 1] + FromBlock(c, x);
    ChainUnique(w.fat, m.sb.dataBlocks, all[0], all);
  }

  lemma LooseLinks(m: Volume, w: Volume, i: nat, x: u16, s: nat, e: Dirent, c: seq<u16>)
    requires Dangles(m, i, x) && s < FS_DIR_ENTRIES && s != i && ReplacesSlot(m, w, s, e, c)
    ensures var d := m.ChainOf(i); forall k :: 0 <= k < |d| - 1 ==> d[k] < |w.fat| && w.fat[d[k]] == d[k + 1]
  {
    hide Dangles, ReplacesSlot, Chain;
    DanglesParts(m, i, x);
    var d := m.ChainOf(i);
    forall k | 0 <= k < |d| - 1 ensures d[k] < |w.fat| && w.fat[d[k]] == d[k + 1] {
      LooseKept(m, w, i, x, s, e, c, k);
    }
  }

  lemma ChosenLinks(m: Volume, w: Volume, s: nat, e: Dirent, c: seq<u16>)
    requires m.Shaped() && s < FS_DIR_ENTRIES && ReplacesSlot(m, w, s, e, c)
    ensures Ascending(c) && m.sb.dataBlocks < |w.fat|
    ensures forall k :: 0 <= k < |c| ==> 1 <= c[k] <= m.sb.dataBlocks && w.fat[c[k]] == Next(c, k)
  {
    ReplacedFat(m, w, s, e, c);
  }

  lemma KeptEntry(m: Volume, w: Volume, i: nat, s: nat, e: Dirent, c: seq<u16>)
    requires m.Shaped() && i < FS_DIR_ENTRIES && s < FS_DIR_ENTRIES && s != i && ReplacesSlot(m, w, s, e, c)
    ensures w.Shaped() && w.sb == m.sb && w.dir[i] == m.dir[i]
  {
  }

  lemma SplicedChain(fat: seq<u16>, blocks: nat, d: seq<u16>, c: seq<u16>, p: nat)
    requires blocks < |fat| && |d| > 0 && p < |c| && c[p] == d[|d| - 1] && Ascending(d) && Ascending(c)
    requires (forall k :: 0 <= k < |d| ==> 1 <= d[k] <= blocks) && (forall k :: 0 <= k < |c| ==> 1 <= c[k] <= blocks)
    requires forall k :: 0 <= k < |d| - 1 ==> fat[d[k]] == d[k + 1]
    requires forall k :: 0 <= k < |c| ==> fat[c[k]] == Next(c, k)
    ensures var all := d[..|d| - 1] + c[p..];
      |all| > 0 && all[0] == d[0] && IsChain(fat, blocks, all[0], all)
  {
    hide Follows, Ascending, Next, IsChain;
    var b, f := d[..|d| - 1], c[p..];
    TailFollows(fat, c, p, 0);
    PartsInOrder(d, c, p);
    JoinedAscends(b, f);
    if |b| > 0 {
      JoinFollows(fat, b, f, c[p]);
    } else {
      assert b + f == f;
    }
    JoinedIn(b, f, blocks);
    FollowsIsChain(fat, blocks, b + f);
  }

  lemma PartsInOrder(d: seq<u16>, c: seq<u16>, p: nat)
    requires |d| > 0 && p < |c| && c[p] == d[|d| - 1] && Ascending(d) && Ascending(c)
    ensures var b, f := d[..|d| - 1], c[p..];
      && Ascending(b) && (forall j :: 0 <= j < |b| ==> b[j] == d[j])
      && (forall k :: 0 <= k < |f| ==> f[k] == c[p + k])
      && forall j, k :: 0 <= j < |b| && 0 <= k < |f| ==> b[j] < f[k]
  {
    assert forall k :: p < k < |c| ==> c[p] < c[k];
  }

  lemma JoinedIn(b: seq<u16>, f: seq<u16>, blocks: nat)
    requires |f| > 0 && (forall k :: 0 <= k < |b| ==> 1 <= b[k] <= blocks)
    requires forall k :: 0 <= k < |f| ==> 1 <= f[k] <= blocks
    ensures forall k :: 0 <= k < |b + f| ==> 1 <= (b + f)[k] <= blocks
    ensures (b + f)[0] == if |b| > 0 then b[0] else f[0]
  {
  }

  lemma FollowsIsChain(fat: seq<u16>, blocks: nat, s: seq<u16>)
    requires blocks < |fat| && |s| > 0 && Follows(fat, s) && Ascending(s)
    requires forall k :: 0 <= k < |s| ==> 1 <= s[k] <= blocks
    ensures IsChain(fat, blocks, s[0], s)
  {
  }

  /** fs_write of another file long enough to reach block `x`: the two files
      share their blocks from `x` on. */
  lemma DanglingShared(m: Volume, i: nat, x: u16, b: CString, data: seq<byte>)
    requires m.Shaped() && i < FS_DIR_ENTRIES && |data| < 0x1_0000_0000 && SlotFor(m.dir, b) >= 0
    requires SlotFor(m.dir, b) != i && FsWrite(m, b, data).ok && x in ChainFor(m, b, |data|)
    requires Dangles(m, i, x)
    ensures var w, s, c, d := FsWrite(m, b, data).vol, SlotFor(m.dir, b), ChainFor(m, b, |data|), m.ChainOf(i);
      && w.Shaped() && |w.fat| == |m.fat| && w.dir[i] == m.dir[i] && w.dir == m.dir[s := w.dir[s]]
      && w.ChainOf(s) == c && w.ChainOf(i) == d[..|d| - 1] + FromBlock(c, x) && SlotOk(w, i)
  {
    var w, s, c := FsWrite(m, b, data).vol, SlotFor(m.dir, b), ChainFor(m, b, |data|);
    OkWrite(m, b, data);
    WriteReplaces(m, b, data);
    SharesFrom(m, w, i, x, s, Filled(EntryFor(m.dir, b), c, |data|), c);
  }

  lemma OkWrite(m: Volume, b: CString, data: seq<byte>)
    requires m.Shaped() && |data| < 0x1_0000_0000 && FsWrite(m, b, data).ok
    ensures ValidName(b) && SlotFor(m.dir, b) >= 0 && |ChainFor(m, b, |data|)| == BlocksFor(|data|)
    ensures var w, s := FsWrite(m, b, data).vol, SlotFor(m.dir, b);
      && |w.dir| == FS_DIR_ENTRIES && |w.fat| == |m.fat|
      && w.dir == m.dir[s := Filled(EntryFor(m.dir, b), ChainFor(m, b, |data|), |data|)]
  {
    hide Replay, ChainFor, Linked;
  }

  lemma WrittenNames(m: Volume, b: CString, data: seq<byte>)
    requires m.Shaped() && |data| < 0x1_0000_0000 && FsWrite(m, b, data).ok && SlotFor(m.dir, b) >= 0
    requires NamesOk(m)
    ensures NamesOk(FsWrite(m, b, data).vol)
    ensures Find(FsWrite(m, b, data).vol.dir, b) == SlotFor(m.dir, b)
  {
    OkWrite(m, b, data);
    NameIsFree(m, b);
    var e := Filled(EntryFor(m.dir, b), ChainFor(m, b, |data|), |data|);
    NamesAfterSlot(m, FsWrite(m, b, data).vol, SlotFor(m.dir, b), e);
    hide FsWrite, NamesOk, Find, ChainFor;
    FindUsed(FsWrite(m, b, data).vol, SlotFor(m.dir, b));
  }

  /** Deleting file `a` then frees blocks of file `b`: it is listed as before,
      and its blocks from `x` on are free. */
  ghost predicate FreesFrom(w: Volume, a: CString, b: CString, x: u16)
    requires w.Shaped()
  {
    var u, j := FsDelete(w, a).vol, Find(w.dir, b);
    && j >= 0 && Find(u.dir, b) == j && u.dir[j] == w.dir[j] && x in w.ChainOf(j)
    && forall y :: y in FromBlock(w.ChainOf(j), x) ==> y < |u.fat| && u.fat[y] == FAT_FREE
  }

  /** Writing `b` and then deleting `a` does that. */
  ghost predicate Harms(m: Volume, a: CString, x: u16, b: CString, data: seq<byte>) {
    && m.Shaped() && |data| < 0x1_0000_0000 && b != a && FsWrite(m, b, data).ok
    && FsWrite(m, b, data).vol.Shaped() && FreesFrom(FsWrite(m, b, data).vol, a, b, x)
  }

  /** Any file long enough to reach block `x` is harmed. */
  lemma DanglingRun(m: Volume, a: CString, x: u16, b: CString, data: seq<byte>)
    requires m.Shaped() && |data| < 0x1_0000_0000 && SlotFor(m.dir, b) >= 0 && a != b && Find(m.dir, a) >= 0
    requires FsWrite(m, b, data).ok && x in ChainFor(m, b, |data|)
    requires Dangles(m, Find(m.dir, a), x)
    ensures Harms(m, a, x, b, data)
  {
    hide FsWrite, ChainFor, Dangles, NamesOk, Find, Chain, FreesFrom, SlotFor;
    var i, s, w := Find(m.dir, a), SlotFor(m.dir, b), FsWrite(m, b, data).vol;
    DanglesParts(m, i, x);
    OtherSlot(m.dir, a, b);
    WrittenNames(m, b, data);
    DanglingShared(m, i, x, b, data);
    ChosenInRange(m, b, |data|, x);
    FindUsed(m, i);
    FindUsed(w, i);
    WrittenSlot(m, b, data);
    FreesShared(w, a, b, x, m.ChainOf(i)[..|m.ChainOf(i)| - 1]);
  }

  lemma OtherSlot(dir: seq<Dirent>, a: CString, b: CString)
    requires |dir| == FS_DIR_ENTRIES && a != b && Find(dir, a) >= 0 && SlotFor(dir, b) >= 0
    ensures SlotFor(dir, b) != Find(dir, a)
  {
  }

  lemma WrittenSlot(m: Volume, b: CString, data: seq<byte>)
    requires m.Shaped() && |data| < 0x1_0000_0000 && FsWrite(m, b, data).ok && SlotFor(m.dir, b) >= 0
    ensures var w, s := FsWrite(m, b, data).vol, SlotFor(m.dir, b);
      s < |w.dir| && Used(w.dir[s]) && Text(w.dir[s].name) == b
  {
    OkWrite(m, b, data);
    hide FsWrite, ChainFor;
  }

  lemma FreesShared(w: Volume, a: CString, b: CString, x: u16, d: seq<u16>)
    requires w.Shaped() && NamesOk(w) && a != b && Find(w.dir, a) >= 0 && Find(w.dir, b) >= 0
    requires var i, s := Find(w.dir, a), Find(w.dir, b);
      && SlotOk(w, i) && x in w.ChainOf(s) && w.ChainOf(i) == d + FromBlock(w.ChainOf(s), x)
      && forall y :: y in FromBlock(w.ChainOf(s), x) ==> y < |w.fat|
    ensures FreesFrom(w, a, b, x)
  {
    var i, s := Find(w.dir, a), Find(w.dir, b);
    DropKeepsNames(w, i, s);
    hide Find, Chain, Replay, NamesOk;
    forall y | y in FromBlock(w.ChainOf(s), x) ensures y < |w.fat| && FsDelete(w, a).vol.fat[y] == FAT_FREE {
      assert y in w.ChainOf(i);
    }
  }

  lemma ChosenInRange(m: Volume, b: CString, len: nat, x: u16)
    requires m.Shaped() && SlotFor(m.dir, b) >= 0 && x in ChainFor(m, b, len)
    ensures forall y :: y in FromBlock(ChainFor(m, b, len), x) ==> y in ChainFor(m, b, len) && y < |m.fat|
  {
    FromBlockIn(ChainFor(m, b, len), x);
    hide ChainFor, FromBlock;
  }

  lemma FromBlockIn(c: seq<u16>, x: u16)
    requires x in c
    ensures forall y :: y in FromBlock(c, x) ==> y in c
  {
  }

  lemma DropKeepsNames(w: Volume, i: nat, s: nat)
    requires w.Shaped() && NamesOk(w) && i < FS_DIR_ENTRIES && s < FS_DIR_ENTRIES && s != i && Used(w.dir[s])
    ensures Find(w.dir[i := BLANK], Text(w.dir[s].name)) == s
  {
    var u := w.(dir := w.dir[i := BLANK]);
    NamesAfterSlot(w, u, i, BLANK);
    hide NamesOk, Find;
    FindUsed(u, s);
  }

  // --- the map --------------------------------------------------------------

  /** Asked for as many blocks as are free up to `x`, LowestFree ends there. */
  lemma {:induction false} ReachesBlock(fat: seq<u16>, b: nat, blocks: nat, x: nat)
    requires blocks < |fat| && blocks <= MAX_BLOCKS && b <= x <= blocks && fat[x] == FAT_FREE
    ensures var c := LowestFree(fat, b, blocks, FreeCount(fat, b, x));
      |c| == FreeCount(fat, b, x) > 0 && c[|c| - 1] == x
    decreases x - b
  {
    if b < x {
      ReachesBlock(fat, b + 1, blocks, x);
    } else {
      assert FreeCount(fat, x + 1, x) == 0;
    }
  }

  /** Byte 512 * k of a file is the first of its block `k`. */
  lemma {:induction false} GatherByte(disk: seq<Sector>, sb: Superblock, c: seq<u16>, size: nat, k: nat)
    requires k < |c| && 512 * k < size
    requires forall j :: 0 <= j < |c| ==> 0 <= BlockLba(sb, c[j]) < |disk|
    ensures 512 * k < |Gather(disk, sb, c, size)|
    ensures Gather(disk, sb, c, size)[512 * k] == disk[BlockLba(sb, c[k])][0]
    decreases k
  {
    if k > 0 {
      var n := Min(size, 512);
      assert forall j :: 0 <= j < |c[1..]| ==> c[1..][j] == c[j + 1];
      GatherByte(disk, sb, c[1..], size - n, k - 1);
      assert Gather(disk, sb, c, size) == disk[BlockLba(sb, c[0])][..n] + Gather(disk, sb, c[1..], size - n);
    }
  }

  /** The shortest data of another file that reaches block `x`, filled with one byte. */
  lemma ReachingWrite(m: Volume, i: nat, x: u16, b: CString, fill: byte) returns (data: seq<byte>)
    requires m.Shaped() && i < FS_DIR_ENTRIES && ValidName(b) && SlotFor(m.dir, b) >= 0 && SlotFor(m.dir, b) != i
    requires Dangles(m, i, x)
    ensures 0 < |data| < 0x1_0000_0000 && FsWrite(m, b, data).ok
    ensures var c := ChainFor(m, b, |data|);
      |c| > 0 && c[|c| - 1] == x && Chunk(data, |c| - 1)[0] == fill
  {
    hide Dangles, FsWrite, LowestFree, FreeCount;
    DanglesParts(m, i, x);
    DroppedHolds(m, b, x);
    var r := FreeCount(DroppedFat(m, b), 1, x);
    ReachesBlock(DroppedFat(m, b), 1, m.sb.dataBlocks, x);
    FreeCountBound(DroppedFat(m, b), 1, x);
    data := seq(512 * r, _ => fill);
    FilledData(data, r, fill);
    hide DroppedFat;
    OkIff(m, b, data);
  }

  lemma DroppedHolds(m: Volume, b: CString, x: u16)
    requires m.Shaped() && SlotFor(m.dir, b) >= 0 && x < |m.fat| && m.fat[x] == FAT_FREE
    ensures DroppedFat(m, b)[x] == FAT_FREE
  {
  }

  lemma FilledData(data: seq<byte>, r: nat, fill: byte)
    requires r > 0 && |data| == 512 * r && forall k :: 0 <= k < |data| ==> data[k] == fill
    ensures BlocksFor(|data|) == r && Chunk(data, r - 1)[0] == fill
  {
    assert Chunk(data, r - 1)[0] == data[(r - 1) * 512];
  }

  lemma OkIff(m: Volume, b: CString, data: seq<byte>)
    requires m.Shaped() && |data| < 0x1_0000_0000 && ValidName(b) && SlotFor(m.dir, b) >= 0
    ensures FsWrite(m, b, data).ok <==> |ChainFor(m, b, |data|)| == BlocksFor(|data|)
    ensures m.sb.dataBlocks < |DroppedFat(m, b)|
         && ChainFor(m, b, |data|) == LowestFree(DroppedFat(m, b), 1, m.sb.dataBlocks, BlocksFor(|data|))
  {
  }

  /** And there always is one. */
  lemma SomeoneIsHarmed(m: Volume, a: CString, x: u16) returns (b: CString, data: seq<byte>)
    requires m.Shaped() && Find(m.dir, a) >= 0
    requires Dangles(m, Find(m.dir, a), x)
    ensures Harms(m, a, x, b, data)
  {
    hide Dangles, Harms, FsWrite, ChainFor, Chunk, NamesOk;
    DanglesParts(m, Find(m.dir, a), x);
    b := AnotherName(m, Find(m.dir, a));
    data := ReachingWrite(m, Find(m.dir, a), x, b, 0);
    DanglingRun(m, a, x, b, data);
  }

  /** If the loose end is within the size, that write shows in the file. */
  lemma VisibleDisagrees(m: Volume, i: nat, x: u16)
    requires Mountable(m) && i < FS_DIR_ENTRIES && |m.ChainOf(i)| <= BlocksFor(m.dir[i].size)
    requires Dangles(m, i, x)
    ensures !RefinesMap(m)
  {
    DanglesParts(m, i, x);
    var b := AnotherName(m, i);
    var was := m.disk[BlockLba(m.sb, x)][0];
    var data := ReachingWrite(m, i, x, b, if was == 0 then 1 else 0);
    var w, a := FsWrite(m, b, data).vol, Text(m.dir[i].name);
    EndShows(m, i, x, b, data);
    WrittenNames(m, b, data);
    DanglingShared(m, i, x, b, data);
    hide FsWrite, ChainFor, Dangles, Gather, Chain, Chunk, NamesOk, Find;
    FindUsed(m, i);
    FindUsed(w, i);
    ChangedFileDisagrees(m, b, data, a);
  }

  lemma MountableShaped(v: Volume)
    requires Mountable(v)
    ensures v.Shaped()
  {
  }

  lemma OneDisagrees(v: Volume, op: Op)
    requires Mountable(v) && CallableOp(op) && Callable([op])
    requires Files(Run(v, [op])) != MapRun(Files(v), Capacity(v), [op])
    ensures !RefinesMap(v)
  {
    hide Files, Capacity, Run, MapRun, Mountable, Callable;
    assert !ActsAsMap(v, [op]);
  }

  /** A write that changes another file is no write to a map. */
  lemma ChangedFileDisagrees(m: Volume, b: CString, data: seq<byte>, a: CString)
    requires Mountable(m) && |data| < 0x1_0000_0000 && a != b
    requires var w := FsWrite(m, b, data).vol;
      && NamesOk(m) && NamesOk(w) && Find(m.dir, a) >= 0 && Find(w.dir, a) >= 0
      && m.ContentOf(Find(m.dir, a)) != w.ContentOf(Find(w.dir, a))
    ensures !RefinesMap(m)
  {
    hide FsWrite, Files, Capacity, TotalBlocks, NamesOk, Find, Gather, Chain, Mountable, ActsAsMap;
    var op := Write(b, data);
    MountableShaped(m);
    NamesAreFound(m, a);
    NamesAreFound(FsWrite(m, b, data).vol, a);
    RunOne(m, op);
    OneDisagrees(m, op);
  }

  /** The byte of the file at the loose end, before and after. */
  lemma EndShows(m: Volume, i: nat, x: u16, b: CString, data: seq<byte>)
    requires m.Shaped() && i < FS_DIR_ENTRIES && |data| < 0x1_0000_0000 && SlotFor(m.dir, b) >= 0
    requires SlotFor(m.dir, b) != i && FsWrite(m, b, data).ok && |m.ChainOf(i)| <= BlocksFor(m.dir[i].size)
    requires var c := ChainFor(m, b, |data|); |c| > 0 && c[|c| - 1] == x && |c| == BlocksFor(|data|)
    requires Dangles(m, i, x)
    ensures var w, at, n := FsWrite(m, b, data).vol, 512 * (|m.ChainOf(i)| - 1), |ChainFor(m, b, |data|)|;
      && |w.dir| == FS_DIR_ENTRIES && at < |m.ContentOf(i)| && at < |w.ContentOf(i)|
      && 0 <= BlockLba(m.sb, x) < |m.disk|
      && m.ContentOf(i)[at] == m.disk[BlockLba(m.sb, x)][0]
      && w.ContentOf(i)[at] == Chunk(data, n - 1)[0]
  {
    hide FsWrite, Dangles, ChainFor, Gather, Chain, Chunk, LooseEnd, NamesOk, Countable, BlockLba;
    var w, c := FsWrite(m, b, data).vol, ChainFor(m, b, |data|);
    DanglesParts(m, i, x);
    EndChain(m, i, x, b, data);
    WriteLands(m, b, data, |c| - 1);
    ContentByte(m, i, |m.ChainOf(i)| - 1);
    ContentByte(w, i, |m.ChainOf(i)| - 1);
  }

  /** A file that ends with block `x` lends the other nothing more. */
  lemma EndChain(m: Volume, i: nat, x: u16, b: CString, data: seq<byte>)
    requires m.Shaped() && i < FS_DIR_ENTRIES && |data| < 0x1_0000_0000 && SlotFor(m.dir, b) >= 0
    requires SlotFor(m.dir, b) != i && FsWrite(m, b, data).ok
    requires var c := ChainFor(m, b, |data|); |c| > 0 && c[|c| - 1] == x
    requires Dangles(m, i, x)
    ensures var w := FsWrite(m, b, data).vol;
      && ValidName(b) && w.Shaped() && w.sb == m.sb && w.dir[i] == m.dir[i] && w.ChainOf(i) == m.ChainOf(i)
  {
    hide FsWrite, Dangles, ChainFor, Chain, LooseEnd, NamesOk, Countable;
    DanglesParts(m, i, x);
    OkWrite(m, b, data);
    LastFromBlock(ChainFor(m, b, |data|), x);
    DanglingShared(m, i, x, b, data);
    WriteLogParts(m, b, data);
    LastBack(m.ChainOf(i), x);
  }

  lemma LastBack(d: seq<u16>, x: u16)
    requires |d| > 0 && d[|d| - 1] == x
    ensures d[..|d| - 1] + [x] == d
  {
  }

  lemma ContentByte(v: Volume, i: nat, k: nat)
    requires v.Shaped() && i < FS_DIR_ENTRIES && k < |v.ChainOf(i)| <= BlocksFor(v.dir[i].size)
    requires forall j :: 0 <= j < |v.ChainOf(i)| ==> 1 <= v.ChainOf(i)[j] <= v.sb.dataBlocks
    ensures 512 * k < |v.ContentOf(i)| && 0 <= BlockLba(v.sb, v.ChainOf(i)[k]) < |v.disk|
    ensures v.ContentOf(i)[512 * k] == v.disk[BlockLba(v.sb, v.ChainOf(i)[k])][0]
  {
    GatherByte(v.disk, v.sb, v.ChainOf(i), v.dir[i].size, k);
  }

  lemma LastFromBlock(c: seq<u16>, x: u16)
    requires Ascending(c) && |c| > 0 && c[|c| - 1] == x
    ensures x in c && FromBlock(c, x) == [x]
  {
    assert forall k :: 0 <= k < |c| - 1 ==> c[k] < c[|c| - 1];
  }

  /** So some run does not act as the bounded map does. */
  lemma DanglingDisagrees(m: Volume, i: nat, x: u16)
    requires Mountable(m)
    requires Dangles(m, i, x)
    ensures !RefinesMap(m)
  {
    DanglesParts(m, i, x);
    if |m.ChainOf(i)| <= BlocksFor(m.dir[i].size) {
      VisibleDisagrees(m, i, x);
    } else {
      SurplusDisagrees(m, i);
    }
  }
}
