/** What stands on the platter, byte by byte: how the superblock, the FAT and the
    directory are laid out, and which entry and which sectors a write fills. */
module RpfsPlatter {
  import opened Bytes
  import opened Drives
  import opened RpfsLayout
  import opened RpfsFat
  import opened RpfsVolume
  import opened RpfsOps
  import opened RpfsFiles
  import opened RpfsSpace

  /** Block `b`, counted from 1, is the b-th sector of the data region. */
  lemma BlocksInOrder(sb: Superblock, b: u16)
    ensures BlockLba(sb, 1) == sb.dataStart
    ensures b < 0xFFFF ==> BlockLba(sb, b + 1) == BlockLba(sb, b) + 1
  {
  }

  // --- bytes ------------------------------------------------------------------

  /** The 32-bit number in bytes at..at + 4, lowest byte first. */
  function Number32(b: seq<byte>, at: nat): int
    requires at + 4 <= |b|
  {
    b[at] as int + 0x100 * b[at + 1] as int + 0x1_0000 * b[at + 2] as int + 0x100_0000 * b[at + 3] as int
  }

  function Number16(b: seq<byte>, at: nat): int
    requires at + 2 <= |b|
  {
    b[at] as int + 0x100 * b[at + 1] as int
  }

  lemma Encoded32(x: u32)
    ensures Number32(Encode32(x), 0) == x
  {
    var h := x / 0x100;
    assert x / 0x1_0000 == h / 0x100 && x / 0x100_0000 == h / 0x100 / 0x100;
  }

  lemma Encoded16(x: u16)
    ensures Number16(Encode16(x), 0) == x
  {
  }

  lemma Within32(s: seq<byte>, at: nat, x: u32)
    requires at + 4 <= |s| && s[at..at + 4] == Encode32(x)
    ensures Number32(s, at) == x
  {
    Encoded32(x);
    var p := s[at..at + 4];
    assert p[0] == s[at] && p[1] == s[at + 1] && p[2] == s[at + 2] && p[3] == s[at + 3];
  }

  lemma Within16(s: seq<byte>, at: nat, x: u16)
    requires at + 2 <= |s| && s[at..at + 2] == Encode16(x)
    ensures Number16(s, at) == x
  {
    Encoded16(x);
    var p := s[at..at + 2];
    assert p[0] == s[at] && p[1] == s[at + 1];
  }

  /** The superblock sector: nine numbers, the first spelling RPFS, then zeros. */
  lemma SuperblockBytes(sb: Superblock)
    ensures var s := SuperblockSector(sb);
      && Number32(s, 0) == sb.magic && Number32(s, 4) == sb.version && Number32(s, 8) == sb.fsSectors
      && Number32(s, 12) == sb.fatStart && Number32(s, 16) == sb.fatSectors && Number32(s, 20) == sb.dirStart
      && Number32(s, 24) == sb.dirSectors && Number32(s, 28) == sb.dataStart && Number32(s, 32) == sb.dataBlocks
      && forall k :: 36 <= k < 512 ==> s[k] == 0
    ensures sb.magic == 0x5346_5052 ==> SuperblockSector(sb)[..4] == [0x52, 0x50, 0x46, 0x53]
  {
    var s := SuperblockSector(sb);
    assert s[0..4] == Encode32(sb.magic) && s[4..8] == Encode32(sb.version) && s[8..12] == Encode32(sb.fsSectors);
    assert s[12..16] == Encode32(sb.fatStart) && s[16..20] == Encode32(sb.fatSectors);
    assert s[20..24] == Encode32(sb.dirStart) && s[24..28] == Encode32(sb.dirSectors);
    assert s[28..32] == Encode32(sb.dataStart) && s[32..36] == Encode32(sb.dataBlocks);
    hide SuperblockSector, Encode32, Number32;
    Within32(s, 0, sb.magic);
    Within32(s, 4, sb.version);
    Within32(s, 8, sb.fsSectors);
    Within32(s, 12, sb.fatStart);
    Within32(s, 16, sb.fatSectors);
    Within32(s, 20, sb.dirStart);
    Within32(s, 24, sb.dirSectors);
    Within32(s, 28, sb.dataStart);
    Within32(s, 32, sb.dataBlocks);
    SuperblockTail(sb);
  }

  lemma SuperblockTail(sb: Superblock)
    ensures forall k :: 36 <= k < 512 ==> SuperblockSector(sb)[k] == 0
    ensures sb.magic == 0x5346_5052 ==> SuperblockSector(sb)[..4] == [0x52, 0x50, 0x46, 0x53]
  {
    var head := Encode32(sb.magic) + Encode32(sb.version) + Encode32(sb.fsSectors)
      + Encode32(sb.fatStart) + Encode32(sb.fatSectors) + Encode32(sb.dirStart)
      + Encode32(sb.dirSectors) + Encode32(sb.dataStart) + Encode32(sb.dataBlocks);
    assert SuperblockSector(sb) == head + Zeros(476) && |head| == 36;
    assert head[..4] == Encode32(sb.magic);
  }

  /** Sector `s` of the FAT: the entries 256 * s and on, two bytes each. */
  lemma FatBytes(fat: seq<u16>, s: nat, j: nat)
    requires (s + 1) * 256 <= |fat| && j < 256
    ensures Number16(FatSector(fat, s), 2 * j) == fat[256 * s + j]
  {
    Encoded16(fat[s * 256 + j]);
  }

  /** Entry `i` of the directory: 32 bytes of sector i / 16, the name first, then
      a byte that says it is in use, the flags, the size and the first block. */
  lemma DirBytes(dir: seq<Dirent>, i: nat)
    requires |dir| == 64 && i < 64
    ensures var s, at, e := DirSector(dir, i / 16), 32 * (i % 16), dir[i];
      && s[at..at + 22] == e.name && s[at + 22] == e.used && s[at + 23] == e.flags
      && Number32(s, at + 24) == e.size && Number16(s, at + 28) == e.first && Number16(s, at + 30) == e.pad
  {
    var s, at := DirSector(dir, i / 16), 32 * (i % 16);
    EntryInSector(dir, i);
    hide DirSector;
    EntryLayout(dir[i]);
    hide EntryBytes;
    var b := EntryBytes(dir[i]);
    assert s[at..at + 32] == b;
    Shifted(s, at, b);
  }

  lemma EntryInSector(dir: seq<Dirent>, i: nat)
    requires |dir| == 64 && i < 64
    ensures var at := 32 * (i % 16); DirSector(dir, i / 16)[at..at + 32] == EntryBytes(dir[i])
  {
    var s, at := DirSector(dir, i / 16), 32 * (i % 16);
    forall k | 0 <= k < 32 ensures s[at..at + 32][k] == EntryBytes(dir[i])[k] {
      assert (at + k) / 32 == i % 16 && (at + k) % 32 == k;
    }
  }

  /** The 32 bytes of an entry. */
  lemma EntryLayout(e: Dirent)
    ensures var b := EntryBytes(e);
      && b[..22] == e.name && b[22] == e.used && b[23] == e.flags
      && Number32(b, 24) == e.size && Number16(b, 28) == e.first && Number16(b, 30) == e.pad
  {
    var b := EntryBytes(e);
    assert b[24..28] == Encode32(e.size) && b[28..30] == Encode16(e.first) && b[30..32] == Encode16(e.pad);
    hide EntryBytes, Encode16, Encode32, Number16, Number32;
    Within32(b, 24, e.size);
    Within16(b, 28, e.first);
    Within16(b, 30, e.pad);
    assert b[..22] == e.name && b[22] == e.used && b[23] == e.flags by {
      EntryHead(e);
    }
  }

  lemma EntryHead(e: Dirent)
    ensures EntryBytes(e)[..22] == e.name && EntryBytes(e)[22] == e.used && EntryBytes(e)[23] == e.flags
  {
  }

  lemma Shifted(s: seq<byte>, at: nat, b: seq<byte>)
    requires at + 32 <= |s| && s[at..at + 32] == b
    ensures s[at..at + 22] == b[..22] && s[at + 22] == b[22] && s[at + 23] == b[23]
    ensures Number32(s, at + 24) == Number32(b, 24) && Number16(s, at + 28) == Number16(b, 28)
    ensures Number16(s, at + 30) == Number16(b, 30)
  {
    assert forall k {:trigger b[k]} :: 0 <= k < 32 ==> s[at + k] == b[k];
  }

  // --- what a call leaves in the directory and the data region ------------------

  /** A name may have 1 to 21 bytes; longer ones and the empty one are refused. */
  lemma NamesOfLength(v: Volume, name: CString, data: seq<byte>)
    requires v.Shaped() && |data| < 0x1_0000_0000 && (|name| == 0 || |name| > 21)
    ensures FsWrite(v, name, data) == Outcome(v, [], false)
  {
  }

  /** With the name and a slot there, only space decides. */
  lemma NamesAccepted(v: Volume, name: CString, data: seq<byte>)
    requires v.Shaped() && |data| < 0x1_0000_0000 && 1 <= |name| <= 21
    requires exists i :: 0 <= i < 64 && (!Used(v.dir[i]) || Text(v.dir[i].name) == name)
    requires Inv(v) && BlocksFor(|data|) <= FreeBlocks(v)
    ensures FsWrite(v, name, data).ok
  {
    SlotThere(v.dir, name);
    assert SlotFor(v.dir, name) >= 0 && SlotOk(v, SlotFor(v.dir, name));
    hide Inv, FsWrite, FreeCount, Chain, SlotOk;
    WriteSucceedsIff(v, name, data);
  }

  lemma SlotThere(dir: seq<Dirent>, name: CString)
    requires |dir| == 64 && exists i :: 0 <= i < 64 && (!Used(dir[i]) || Text(dir[i].name) == name)
    ensures SlotFor(dir, name) >= 0
  {
    hide Text;
  }

  /** The entry fs_write leaves, the disk having had room or not: the file's own, or
      the lowest one not in use, with nothing in it but the name, the size and the
      first block. Every other entry stays. */
  lemma EntryWritten(v: Volume, name: CString, data: seq<byte>)
    requires v.Shaped() && |data| < 0x1_0000_0000 && 1 <= |name| <= 21 && SlotFor(v.dir, name) >= 0
    ensures var w, i := FsWrite(v, name, data).vol, SlotFor(v.dir, name);
      && 0 <= i < |w.dir| == |v.dir| && w.dir == v.dir[i := w.dir[i]]
      && w.dir[i].size == (if FsWrite(v, name, data).ok then |data| else 0)
      && (w.dir[i].size == 0 ==> w.dir[i].first == 0)
      && (if Find(v.dir, name) >= 0 then
            i == Find(v.dir, name) && w.dir[i] == v.dir[i].(size := w.dir[i].size, first := w.dir[i].first)
          else
            && !Used(v.dir[i]) && (forall j :: 0 <= j < i ==> Used(v.dir[j]))
            && w.dir[i].name[..|name|] == name && (forall k :: |name| <= k < 22 ==> w.dir[i].name[k] == 0)
            && w.dir[i].used == 1 && w.dir[i].flags == 0 && w.dir[i].pad == 0)
  {
    hide Text, Replay, ChainFor, Linked;
  }

  /** Deleting zeroes the whole entry; renaming changes nothing in it but the name. */
  lemma EntryDeleted(v: Volume, name: CString)
    requires v.Shaped() && Find(v.dir, name) >= 0
    ensures var w, i := FsDelete(v, name).vol, Find(v.dir, name);
      |w.dir| == |v.dir| && w.dir == v.dir[i := w.dir[i]] && EntryBytes(w.dir[i]) == Zeros(32)
  {
    hide Text, Replay;
    BlankBytes();
  }

  lemma BlankBytes()
    ensures EntryBytes(BLANK) == Zeros(32)
  {
    assert Encode32(0) == [0, 0, 0, 0] && Encode16(0) == [0, 0];
  }

  lemma EntryRenamed(v: Volume, oldName: CString, newName: CString)
    requires v.Shaped() && FsRename(v, oldName, newName).ok
    ensures var w, i := FsRename(v, oldName, newName).vol, Find(v.dir, oldName);
      && 1 <= |newName| <= 21 && 0 <= i < |w.dir| == |v.dir| && w.dir == v.dir[i := w.dir[i]]
      && w.dir[i] == v.dir[i].(name := w.dir[i].name)
      && w.dir[i].name[..|newName|] == newName && forall k :: |newName| <= k < 22 ==> w.dir[i].name[k] == 0
  {
    hide Text, Replay;
  }

  /** Every sector of a file that was just written: its part of the data, and zeros
      after the end. */
  lemma SectorsWritten(v: Volume, name: CString, data: seq<byte>, k: nat, j: nat)
    requires v.Shaped() && |data| < 0x1_0000_0000 && ValidName(name) && SlotFor(v.dir, name) >= 0
    requires k < |ChainFor(v, name, |data|)| && j < 512
    ensures var w, b := FsWrite(v, name, data).vol, ChainFor(v, name, |data|)[k];
      && 0 <= v.sb.dataStart + b - 1 < |w.disk|
      && w.disk[v.sb.dataStart + b - 1][j] == if 512 * k + j < |data| then data[512 * k + j] else 0
  {
    hide FsWrite;
    WriteLands(v, name, data, k);
    hide ChainFor;
    ChunkBytes(data, k, j);
  }

  lemma ChunkBytes(data: seq<byte>, k: nat, j: nat)
    requires 512 * k < |data| && j < 512
    ensures Chunk(data, k)[j] == if 512 * k + j < |data| then data[512 * k + j] else 0
  {
  }
}
