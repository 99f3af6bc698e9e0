/** Power-up after a crash: what fs_mount followed by fs_read returns on the
    platter an interrupted operation left. */
module RpfsReboot {
  import opened Bytes
  import opened Drives
  import opened RpfsLayout
  import opened RpfsVolume
  import opened RpfsOps
  import opened RpfsCrash
  import opened Rpfs

  /** The drive holds an RPFS volume whose regions are in place. */
  ghost predicate HoldsVolume(disk: seq<Sector>) {
    && Formatted(disk) && |disk| <= MAX_SECTORS && WellPlaced(ParseSuperblock(disk[FS_START_LBA]), |disk|)
  }

  /** A fresh driver on the drive as it was left. */
  method Reboot(drive: Drive) returns (fs: FileSystem)
    requires drive.Valid() && HoldsVolume(drive.sectors)
    modifies drive
    ensures fresh(fs) && fs.drive == drive && drive.sectors == old(drive.sectors)
    ensures fs.mounted ==> fs.Vol() == MountImage(drive.sectors)
    ensures Readable(MountImage(old(drive.sectors))) ==> fs.Usable()
    ensures Inv(MountImage(old(drive.sectors))) ==> fs.Valid()
    ensures drive.reliable ==> fs.mounted
  {
    hide Inv, Readable, ParseSuperblock, FatOf, DirOf;
    fs := new FileSystem(drive);
    var _ := fs.Mount(true, true);
  }

  method ReadAfterReboot(drive: Drive, name: CString, maxlen: nat) returns (r: ReadOutcome)
    requires drive.Valid() && HoldsVolume(drive.sectors) && Readable(MountImage(drive.sectors))
    modifies drive
    ensures drive.sectors == old(drive.sectors)
    ensures r.Returned? ==> r.result == FsRead(MountImage(drive.sectors), name, maxlen) && r.result.Found?
    ensures drive.reliable && FsRead(MountImage(drive.sectors), name, maxlen).Found? ==> r.Returned?
    ensures FsRead(MountImage(drive.sectors), name, maxlen).NotFound? ==> r.None?
  {
    hide FsRead, Readable, MountImage;
    var fs := Reboot(drive);
    var copied;
    r, copied := fs.ReadFile(name, maxlen);
  }

  /** What was read is what the specification reads from volume `v`. */
  ghost predicate ReadsAs(r: ReadOutcome, want: ReadResult, reliable: bool) {
    && (r.Returned? ==> r.result == want && want.Found?)
    && (want.NotFound? ==> r.None?)
    && (reliable && want.Found? ==> r.Returned?)
  }

  /** fs_write cut short: power the machine up again and read any other file. */
  method AfterCrashedWrite(drive: Drive, ghost v: Volume, ghost name: CString, ghost data: seq<byte>,
                           ghost log: seq<SectorWrite>, n: CString, maxlen: nat) returns (r: ReadOutcome)
    requires drive.Valid() && FS_START_LBA + 16 < |v.disk| <= MAX_SECTORS && drive.sectors == Replay(v.disk, log)
    requires Inv(v) && Synced(v) && |data| < 0x1_0000_0000 && n != name
    requires forall k :: 0 <= k < |log| ==> log[k] in FsWrite(v, name, data).log
    modifies drive
    ensures ReadsAs(r, FsRead(v, n, maxlen), drive.reliable)
  {
    hide Inv, FsWrite, FsRead, Replay, Synced, Readable, ParseSuperblock, FatOf, DirOf, HoldsVolume, MountImage, Find;
    WriteCrashIsolation(v, name, data, log, n, maxlen);
    OnDrive(v, drive.sectors);
    r := ReadAfterReboot(drive, n, maxlen);
  }

  /** fs_delete cut short: the same. */
  method AfterCrashedDelete(drive: Drive, ghost v: Volume, ghost name: CString, ghost log: seq<SectorWrite>,
                            n: CString, maxlen: nat) returns (r: ReadOutcome)
    requires drive.Valid() && FS_START_LBA + 16 < |v.disk| <= MAX_SECTORS && drive.sectors == Replay(v.disk, log)
    requires Inv(v) && Synced(v) && n != name
    requires forall k :: 0 <= k < |log| ==> log[k] in FsDelete(v, name).log
    modifies drive
    ensures ReadsAs(r, FsRead(v, n, maxlen), drive.reliable)
  {
    hide Inv, FsDelete, FsRead, Replay, Synced, Readable, ParseSuperblock, FatOf, DirOf, HoldsVolume, MountImage, Find;
    DeleteCrashIsolation(v, name, log, n, maxlen);
    OnDrive(v, drive.sectors);
    r := ReadAfterReboot(drive, n, maxlen);
  }

  /** And the file that was being deleted: gone, or a prefix of its old bytes
      under its old size. */
  method AfterCrashedDeleteOf(drive: Drive, ghost v: Volume, name: CString, ghost log: seq<SectorWrite>, maxlen: nat)
    returns (r: ReadOutcome)
    requires drive.Valid() && FS_START_LBA + 16 < |v.disk| <= MAX_SECTORS && drive.sectors == Replay(v.disk, log)
    requires Inv(v) && Synced(v) && Find(v.dir, name) >= 0
    requires forall k :: 0 <= k < |log| ==> log[k] in FsDelete(v, name).log
    modifies drive
    ensures r.Returned? ==> r.result.Found? && r.result.size == v.dir[Find(v.dir, name)].size
    ensures r.Returned? ==> r.result.Found? && r.result.bytes <= v.ContentOf(Find(v.dir, name))
  {
    hide Inv, FsDelete, FsRead, Replay, Synced, Readable, ParseSuperblock, FatOf, DirOf, HoldsVolume, MountImage, Find;
    DeleteCrashPrefix(v, name, log, maxlen);
    OnDrive(v, drive.sectors);
    r := ReadAfterReboot(drive, name, maxlen);
  }

  /** Creating a file, cut short after `k` sector writes: it is absent, or reads
      as after the complete call. */
  method AfterCrashedCreate(drive: Drive, ghost v: Volume, name: CString, ghost data: seq<byte>,
                            ghost k: nat, maxlen: nat)
    returns (r: ReadOutcome)
    requires drive.Valid() && FS_START_LBA + 16 < |v.disk| <= MAX_SECTORS
    requires Inv(v) && Synced(v) && |data| < 0x1_0000_0000 && Find(v.dir, name) < 0
    requires FsWrite(v, name, data).ok && k <= |FsWrite(v, name, data).log|
    requires drive.sectors == Replay(v.disk, FsWrite(v, name, data).log[..k])
    modifies drive
    ensures r.Returned? ==> r.result == FsRead(FsWrite(v, name, data).vol, name, maxlen)
  {
    hide Inv, FsWrite, FsRead, Replay, Synced, Readable, ParseSuperblock, FatOf, DirOf, HoldsVolume, MountImage, Find;
    CreateAtomic(v, name, data, k, maxlen);
    OnDrive(v, drive.sectors);
    r := ReadAfterReboot(drive, name, maxlen);
  }

  lemma OnDrive(v: Volume, disk: seq<Sector>)
    requires Inv(v) && FS_START_LBA + 16 < |v.disk| <= MAX_SECTORS && |disk| == |v.disk|
    requires ParseSuperblock(disk[FS_START_LBA]) == v.sb
    ensures HoldsVolume(disk)
  {
  }
}
