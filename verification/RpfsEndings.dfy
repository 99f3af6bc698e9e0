/** What fs_write leaves of the file itself, however it ends. */
module RpfsEndings {
  import opened Bytes
  import opened Drives
  import opened RpfsLayout
  import opened RpfsFat
  import opened RpfsVolume
  import opened RpfsOps
  import opened RpfsFiles
  import opened RpfsCrash

  /** What a full read of `name` delivers; nothing for an absent file. */
  ghost function FileOf(v: Volume, name: CString): seq<byte> {
    if Find(v.dir, name) >= 0 then v.ContentOf(Find(v.dir, name)) else []
  }

  lemma FindRewritten(dir: seq<Dirent>, name: CString, e: Dirent)
    requires |dir| == FS_DIR_ENTRIES && SlotFor(dir, name) >= 0 && Used(e) && Text(e.name) == name
    ensures Find(dir[SlotFor(dir, name) := e], name) == SlotFor(dir, name)
  {
    hide Text, FindFrom;
    var s := SlotFor(dir, name);
    var after := dir[s := e];
    assert after[s] == e;
    assert forall j :: 0 <= j < |dir| && j != s ==> after[j] == dir[j];
  }

  /** The written slot's contents are what its new chain gathers. */
  lemma RewrittenFile(v: Volume, w: Volume, name: CString, e: Dirent, c: seq<u16>)
    requires v.Shaped() && w.Shaped() && w.sb == v.sb && SlotFor(v.dir, name) >= 0
    requires Ascending(c) && forall k :: 0 <= k < |c| ==> 1 <= c[k] <= v.sb.dataBlocks < |v.fat|
    requires w.fat == Linked(DroppedFat(v, name), c) && w.dir == v.dir[SlotFor(v.dir, name) := e]
    requires Used(e) && Text(e.name) == name && e.first == Head(c)
    ensures FileOf(w, name) == Gather(w.disk, v.sb, c, e.size)
  {
    LinkedShape(DroppedFat(v, name), c);
    FindRewritten(v.dir, name, e);
    hide Linked, DroppedFat, Text, Find, SlotFor, Gather, Chain;
    ChainUnique(w.fat, w.sb.dataBlocks, e.first, c);
  }

  /** The first `n` blocks hold the data, the next one something else. */
  lemma {:induction false} GatherCut(disk: seq<Sector>, sb: Superblock, c: seq<u16>, data: seq<byte>, n: nat, k: nat)
    requires k <= n && |c| == n + 1 && 512 * n < |data|
    requires forall m :: k <= m <= n ==> 0 <= BlockLba(sb, c[m]) < |disk|
    requires forall m :: k <= m < n ==> disk[BlockLba(sb, c[m])] == Chunk(data, m)
    ensures Gather(disk, sb, c[k..], |data| - 512 * k)
         == data[512 * k..512 * n] + disk[BlockLba(sb, c[n])][..Min(512, |data| - 512 * n)]
    decreases n - k
  {
    assert c[k..][0] == c[k] && c[k..][1..] == c[k + 1..];
    if k == n {
      var last := disk[BlockLba(sb, c[n])][..Min(512, |data| - 512 * n)];
      assert Gather(disk, sb, c[k + 1..], |data| - 512 * k - Min(|data| - 512 * k, 512)) == [];
      assert Gather(disk, sb, c[k..], |data| - 512 * k) == last + [];
    } else {
      GatherCut(disk, sb, c, data, n, k + 1);
      ChunkIsSlice(data, k);
      assert data[512 * k..512 * n] == data[512 * k..512 * k + 512] + data[512 * (k + 1)..512 * n];
    }
  }

  lemma ChunkIsSlice(data: seq<byte>, k: nat)
    requires 512 * k + 512 <= |data|
    ensures Chunk(data, k)[..512] == data[512 * k..512 * k + 512]
  {
  }

  /** A prefix of the data writes is the data writes of a prefix of the chain. */
  lemma DataLogPrefix(sb: Superblock, c: seq<u16>, data: seq<byte>, q: nat)
    requires |c| <= BlocksFor(|data|) && q <= |c| && forall k :: 0 <= k < |c| ==> 0 <= BlockLba(sb, c[k])
    ensures DataLog(sb, c, data)[..q] == DataLog(sb, c[..q], data)
  {
  }

  /** After the data writes of the first `q` blocks, block `m` is in place. */
  lemma PrefixLanded(v: Volume, name: CString, data: seq<byte>, q: nat, m: nat)
    requires v.Shaped() && |data| < 0x1_0000_0000 && SlotFor(v.dir, name) >= 0
    requires m < q <= |ChainFor(v, name, |data|)|
    ensures var c := ChainFor(v, name, |data|);
      0 <= BlockLba(v.sb, c[m]) < |v.disk| &&
      Replay(v.disk, DataLog(v.sb, c, data)[..q])[BlockLba(v.sb, c[m])] == Chunk(data, m)
  {
    var c := ChainFor(v, name, |data|);
    DataLogPrefix(v.sb, c, data, q);
    hide ChainFor, Chunk, Replay, DataLog;
    DataLanded(v.disk, v.sb, c[..q], data, m);
  }

  /** Flushing metadata leaves the written blocks alone. */
  lemma FlushedLanded(v: Volume, name: CString, data: seq<byte>,
                      fat: seq<u16>, dir: seq<Dirent>, done: seq<SectorWrite>, m: nat)
    requires v.Shaped() && |data| < 0x1_0000_0000 && SlotFor(v.dir, name) >= 0 && m < |ChainFor(v, name, |data|)|
    requires |fat| == |v.fat| && |dir| == FS_DIR_ENTRIES
    requires forall k :: 0 <= k < |done| ==> done[k] in FatLog(v.sb, fat) + DirLog(v.sb, dir)
    ensures var c := ChainFor(v, name, |data|);
      && 0 <= BlockLba(v.sb, c[m]) < |v.disk|
      && Replay(Replay(v.disk, DataLog(v.sb, c, data)), done)[BlockLba(v.sb, c[m])] == Chunk(data, m)
  {
    var c := ChainFor(v, name, |data|);
    var b := c[m];
    assert DataLog(v.sb, c, data)[..|c|] == DataLog(v.sb, c, data);
    PrefixLanded(v, name, data, |c|, m);
    hide ChainFor, Chunk, Replay, DataLog;
    forall k | 0 <= k < |done| ensures done[k].lba != BlockLba(v.sb, b) {
      FlushAllowed(v, fat, dir, [], done[k]);
    }
    ReplayMisses(Replay(v.disk, DataLog(v.sb, c, data)), done, BlockLba(v.sb, b));
  }
}
