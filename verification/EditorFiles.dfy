/** The editor's text against the file it is saved to and opened from. */
module EditorFiles {
  import opened Bytes
  import opened SaveEnding
  import opened RpfsVolume
  import opened RpfsOps
  import opened RpfsEndings
  import opened Rpfs
  import opened EditorMemory
  import opened TextEditor

  /** The value fs_read returns for a size, a signed 32-bit number. */
  function Signed(x: u32): (r: int)
    ensures -0x8000_0000 <= r < 0x8000_0000 && (r - x) % 0x1_0000_0000 == 0
  {
    if x < 0x8000_0000 then x else x - 0x1_0000_0000
  }

  /** The size open_editor is told: -1 for a file that is not there. */
  ghost function ToldSize(fs: FileSystem, name: CString): int
    reads fs, fs.fat, fs.dir, fs.drive
  {
    var i := Find(fs.dir[..], name);
    if fs.mounted && i >= 0 then Signed(fs.dir[i].size) else -1
  }

  /** editor_save: however the write ends, the file and the mark change as the
      model of the editor's runs says, and the file then holds the text exactly
      if the ending keeps it. */
  method SaveToDisk(e: EditorWindow, fs: FileSystem, name: CString) returns (ghost how: Ending)
    requires e.Valid() && fs.Usable() && |e.View().text| < 0x1_0000_0000
    modifies e`modified, fs.fat, fs.dir, fs.drive
    ensures e.Valid() && e.View() == Model.Step(old(e.View()), Model.Save(how)) && e.Rest() == old(e.Rest())
    ensures fs.Usable() && (old(fs.Valid()) ==> fs.Valid()) && Possible(e.View().text, how)
    ensures FileOf(fs.Vol(), name) == Contents(old(FileOf(fs.Vol(), name)), e.View().text, how)
    ensures !how.Refused? ==> (FileOf(fs.Vol(), name) == e.View().text <==> Keeps(e.View().text, how))
    ensures how.Done? ==> !e.modified && FileOf(fs.Vol(), name) == e.View().text
    ensures !how.Done? ==> e.modified == old(e.modified)
  {
    hide FileOf, Model.Inv, Inv, Readable, FsWrite, SlotFor, Find, FileSystem.Valid, FileSystem.Usable;
    var text := e.mem.blocks[e.buf][..e.len];
    var ok;
    ok, how := fs.WriteFile(name, text);
    e.Save(ok, how);
    if !how.Refused? {
      KeepsIff(old(FileOf(fs.Vol(), name)), text, how);
    }
  }

  /** open_editor on the filesystem: the editor shows as many bytes as the size
      it is told, and they begin with what the second fs_read copies. On a
      reliable drive that is the whole file, so the text is the file exactly if
      its chain holds all its bytes. */
  method OpenFromDisk(mem: Memory, fs: FileSystem, name: CString, slot: bool)
    returns (e: EditorWindow?, ghost copied: seq<byte>)
    requires mem.Valid() && fs.Usable()
    modifies mem
    ensures mem.Valid() && (mem.reliable && slot ==> e != null) && (e == null ==> mem.blocks == old(mem.blocks))
    ensures e != null ==>
      && fresh(e) && fresh(e.undo) && fresh(e.redo) && e.mem == mem && e.Valid() && e.Rest() == old(mem.blocks)
      && !e.modified && |e.View().text| == Max(ToldSize(fs, name), 0)
    ensures e != null ==> copied <= e.View().text
    ensures fs.Valid() ==> copied <= FileOf(fs.Vol(), name)
    ensures fs.Valid() && fs.drive.reliable && ToldSize(fs, name) >= 0 ==> copied == FileOf(fs.Vol(), name)
    ensures e != null && fs.Valid() && fs.drive.reliable && ToldSize(fs, name) >= 0 ==>
      (FileOf(fs.Vol(), name) == e.View().text <==> |FileOf(fs.Vol(), name)| == ToldSize(fs, name))
  {
    hide Inv, Readable, Walk;
    var r, _ := fs.ReadFile(name, 0);
    var size := if r.Returned? then Signed(r.result.size) else -1;
    var got: seq<byte> := [];
    if size > 0 {
      r, got := fs.ReadFile(name, size);
    }
    copied := got;
    if fs.mounted && Inv(fs.Vol()) {
      ReadDeliversContent(fs.Vol(), name, Max(size, 0));
    }
    e := EditorWindow.Open(mem, size, got, slot);
  }
}
