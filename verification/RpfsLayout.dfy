/** The RPFS on-disk format: superblock, FAT and directory as sector images.
    A 512-byte sector holds 256 FAT entries or 16 directory entries of 32
    bytes, so the 64-entry directory fills 4 sectors. */
module RpfsLayout {
  import opened Bytes
  import opened Drives

  const FS_MAGIC: u32 := 0x5346_5052
  const FS_VERSION: u32 := 1
  const FS_START_LBA := 193
  const FS_MAX_NAME := 21
  const FS_DIR_ENTRIES := 64
  const FAT_FREE: u16 := 0
  const FAT_END: u16 := 0xFFFF
  const MAX_BLOCKS := 0xFFFE
  /** An LBA28 drive addresses at most this many sectors. */
  const MAX_SECTORS := 0x1000_0000

  datatype Superblock = Superblock(
    magic: u32, version: u32, fsSectors: u32, fatStart: u32, fatSectors: u32,
    dirStart: u32, dirSectors: u32, dataStart: u32, dataBlocks: u32)

  type NameField = s: seq<byte> | |s| == FS_MAX_NAME + 1 witness Zeros(22)

  datatype Dirent = Dirent(name: NameField, used: byte, flags: byte, size: u32, first: u16, pad: u16)

  const BLANK := Dirent(Zeros(FS_MAX_NAME + 1), 0, 0, 0, 0, 0)

  // --- geometry -------------------------------------------------------------

  /** The geometry fs_format chooses for a drive of `total` sectors. */
  function Geometry(total: nat): Superblock
    requires FS_START_LBA + 16 < total <= MAX_SECTORS
  {
    var fsSectors := total - FS_START_LBA;
    var fatSectors := (fsSectors * 2 + 512 - 1) / 512;
    var blocks := fsSectors - 1 - fatSectors - 4;
    Superblock(FS_MAGIC, FS_VERSION, fsSectors, FS_START_LBA + 1, fatSectors,
               FS_START_LBA + 1 + fatSectors, 4,
               FS_START_LBA + 1 + fatSectors + 4, Min(blocks, MAX_BLOCKS))
  }

  /** The regions follow one another without overlap, end within the drive,
      and every data block has a FAT entry. */
  ghost predicate WellPlaced(sb: Superblock, total: nat) {
    && sb.magic == FS_MAGIC && sb.version == FS_VERSION
    && sb.fatStart == FS_START_LBA + 1
    && sb.dirStart == sb.fatStart + sb.fatSectors
    && sb.dirSectors == 4
    && sb.dataStart == sb.dirStart + sb.dirSectors
    && 1 <= sb.dataBlocks <= MAX_BLOCKS
    && sb.dataBlocks < sb.fatSectors * 256
    && sb.dataStart + sb.dataBlocks <= total
  }

  /** fs_format on a drive of `total` sectors: the superblock at sector 193, a FAT
      with a 16-bit entry for every sector from there on, four sectors of
      directory, and all the rest as data blocks, as many as 16 bits can number. */
  lemma FormatDivides(total: nat)
    requires 209 < total <= 0x1000_0000
    ensures var sb, fatSectors := Geometry(total), (total - 193 + 255) / 256;
      && sb.magic == 0x5346_5052 && sb.version == 1 && sb.fsSectors == total - 193
      && sb.fatStart == 194 && sb.fatSectors == fatSectors
      && sb.dirStart == 194 + fatSectors && sb.dirSectors == 4
      && sb.dataStart == 198 + fatSectors
      && sb.dataBlocks == Min(total - 198 - fatSectors, 65534)
  {
    var n := total - 193;
    assert (n * 2 + 512 - 1) / 512 == (n + 255) / 256;
  }

  /** The regions lie where they may, and no sector that can be used is left out. */
  lemma GeometryWellPlaced(total: nat)
    requires FS_START_LBA + 16 < total <= MAX_SECTORS
    ensures WellPlaced(Geometry(total), total)
    ensures var sb := Geometry(total); sb.dataStart + sb.dataBlocks == total || sb.dataBlocks == 0xFFFE
    ensures (Geometry(total).fsSectors - 1) / 256 == Geometry(total).fatSectors - 1
  {
    var fsSectors := total - FS_START_LBA;
    var f := (fsSectors * 2 + 512 - 1) / 512;
    assert fsSectors <= f * 256 < fsSectors + 256;
  }

  // --- superblock -----------------------------------------------------------

  function SuperblockSector(sb: Superblock): Sector {
    Encode32(sb.magic) + Encode32(sb.version) + Encode32(sb.fsSectors)
    + Encode32(sb.fatStart) + Encode32(sb.fatSectors) + Encode32(sb.dirStart)
    + Encode32(sb.dirSectors) + Encode32(sb.dataStart) + Encode32(sb.dataBlocks)
    + Zeros(512 - 36)
  }

  function ParseSuperblock(s: Sector): Superblock {
    Superblock(Decode32(s[0..4]), Decode32(s[4..8]), Decode32(s[8..12]),
               Decode32(s[12..16]), Decode32(s[16..20]), Decode32(s[20..24]),
               Decode32(s[24..28]), Decode32(s[28..32]), Decode32(s[32..36]))
  }

  lemma SuperblockRoundTrip(sb: Superblock)
    ensures ParseSuperblock(SuperblockSector(sb)) == sb
  {
    var s := SuperblockSector(sb);
    assert s[0..4] == Encode32(sb.magic);
    assert s[4..8] == Encode32(sb.version);
    assert s[8..12] == Encode32(sb.fsSectors);
    assert s[12..16] == Encode32(sb.fatStart);
    assert s[16..20] == Encode32(sb.fatSectors);
    assert s[20..24] == Encode32(sb.dirStart);
    assert s[24..28] == Encode32(sb.dirSectors);
    assert s[28..32] == Encode32(sb.dataStart);
    assert s[32..36] == Encode32(sb.dataBlocks);
    RoundTrip32(sb.magic);
    RoundTrip32(sb.version);
    RoundTrip32(sb.fsSectors);
    RoundTrip32(sb.fatStart);
    RoundTrip32(sb.fatSectors);
    RoundTrip32(sb.dirStart);
    RoundTrip32(sb.dirSectors);
    RoundTrip32(sb.dataStart);
    RoundTrip32(sb.dataBlocks);
  }

  // --- file allocation table ------------------------------------------------

  /** Sector `s` of the cached FAT, as flush_fat_range hands it to the drive. */
  function FatSector(fat: seq<u16>, s: nat): Sector
    requires (s + 1) * 256 <= |fat|
  {
    seq(512, j requires 0 <= j < 512 => Encode16(fat[s * 256 + j / 2])[j % 2])
  }

  /** The FAT that fs_mount loads from `n` sectors starting at `start`. */
  function FatOf(disk: seq<Sector>, start: nat, n: nat): (fat: seq<u16>)
    requires start + n <= |disk|
    ensures |fat| == n * 256
  {
    seq(n * 256, x requires 0 <= x < n * 256 =>
      var at := x % 256 * 2; Decode16(disk[start + x / 256][at..at + 2]))
  }

  /** One FAT entry survives the trip through its sector. */
  lemma FatEntryRoundTrip(fat: seq<u16>, x: nat)
    requires x < |fat| && |fat| % 256 == 0
    ensures (x / 256 + 1) * 256 <= |fat|
    ensures var at := x % 256 * 2;
            Decode16(FatSector(fat, x / 256)[at..at + 2]) == fat[x]
  {
    var s, at := x / 256, x % 256 * 2;
    assert FatSector(fat, s)[at..at + 2] == Encode16(fat[x]);
    RoundTrip16(fat[x]);
  }

  // --- directory ------------------------------------------------------------

  function EntryBytes(e: Dirent): (b: seq<byte>)
    ensures |b| == 32
  {
    e.name + [e.used, e.flags] + Encode32(e.size) + Encode16(e.first) + Encode16(e.pad)
  }

  function ParseEntry(b: seq<byte>): Dirent
    requires |b| == 32
  {
    Dirent(b[..22], b[22], b[23], Decode32(b[24..28]), Decode16(b[28..30]), Decode16(b[30..]))
  }

  lemma EntryRoundTrip(e: Dirent)
    ensures ParseEntry(EntryBytes(e)) == e
  {
    var b := EntryBytes(e);
    assert b[..22] == e.name && b[24..28] == Encode32(e.size);
    assert b[28..30] == Encode16(e.first) && b[30..] == Encode16(e.pad);
    RoundTrip32(e.size);
    RoundTrip16(e.first);
    RoundTrip16(e.pad);
  }

  /** Sector `s` of the cached directory, as flush_dir hands it to the drive. */
  function DirSector(dir: seq<Dirent>, s: nat): Sector
    requires |dir| == FS_DIR_ENTRIES && s < 4
  {
    seq(512, j requires 0 <= j < 512 =>
      EntryBytes(dir[s * 16 + j / 32])[j % 32])
  }

  /** The directory that fs_mount loads from the sectors starting at `start`. */
  function DirOf(disk: seq<Sector>, start: nat): (dir: seq<Dirent>)
    requires start + 4 <= |disk|
    ensures |dir| == FS_DIR_ENTRIES
  {
    seq(FS_DIR_ENTRIES, x requires 0 <= x < FS_DIR_ENTRIES =>
      var at := x % 16 * 32;
      ParseEntry(disk[start + x / 16][at..at + 32]))
  }

  /** One directory entry lies in one sector and survives the trip through it. */
  lemma DirEntryRoundTrip(dir: seq<Dirent>, x: nat)
    requires |dir| == FS_DIR_ENTRIES && x < FS_DIR_ENTRIES
    ensures var at := x % 16 * 32;
            ParseEntry(DirSector(dir, x / 16)[at..at + 32]) == dir[x]
  {
    var s, at := x / 16, x % 16 * 32;
    assert DirSector(dir, s)[at..at + 32] == EntryBytes(dir[x]) by {
      forall k | 0 <= k < 32
        ensures DirSector(dir, s)[at + k] == EntryBytes(dir[x])[k]
      {
        assert (at + k) / 32 == x % 16 && (at + k) % 32 == k;
      }
    }
    EntryRoundTrip(dir[x]);
  }
}
