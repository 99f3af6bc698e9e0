/** The editor record of kernel/gui.c, its fields updated in place and its
    buffers taken from the kernel heap. */
module TextEditor {
  import opened Bytes
  import opened TextGeometry
  import opened EditorMemory
  import opened SaveEnding
  import Model = EditorModel

  /** sizeof(editor_t). */
  const RECORD_SIZE := 648

  class EditorWindow {
    const mem: Memory
    /** The address of this record, itself an allocation. */
    const rec: int
    var buf: int
    var len: nat
    var cap: nat
    var cursor: nat
    var prefcol: nat
    var modified: bool
    const undo: array<Slot>
    const redo: array<Slot>
    var undoN: nat
    var redoN: nat
    var lastTick: u32
    var lastKind: nat

    ghost predicate Shape()
      reads this, mem, undo, redo
    {
      && mem.Valid() && undo.Length == 24 && redo.Length == 24 && undo != redo
      && undoN <= 24 && redoN <= 24 && len <= cap
      && Held(mem.blocks, rec, buf, cap, undo[..undoN], redo[..redoN])
    }

    /** The editor's value: text, cursor and both stacks of snapshots. */
    ghost function View(): Model.Editor
      requires undoN <= undo.Length && redoN <= redo.Length
      reads this, mem, undo, redo
    {
      Model.Editor(TextAt(mem.blocks, buf, len), cap, cursor, prefcol, modified,
                   Snaps(mem.blocks, undo[..undoN]), Snaps(mem.blocks, redo[..redoN]), lastTick, lastKind)
    }

    ghost predicate Valid()
      reads this, mem, undo, redo
    {
      Shape() && Model.Inv(View())
    }

    /** All memory that is not this editor's. */
    ghost function Rest(): Blocks
      requires undoN <= undo.Length && redoN <= redo.Length
      reads this, mem, undo, redo
    {
      Others(mem.blocks, rec, buf, undo[..undoN], redo[..redoN])
    }

    constructor (mem: Memory, rec: int, buf: int, cap: nat, len: nat)
      requires mem.Valid() && rec in mem.blocks && buf in mem.blocks && rec != buf
      requires |mem.blocks[buf]| == cap && len <= cap && cap > 0
      ensures Valid() && this.mem == mem && this.rec == rec && fresh(undo) && fresh(redo) && undoN == 0 && redoN == 0
      ensures View() == Model.Editor(mem.blocks[buf][..len], cap, 0, 0, false, [], [], 0, 0)
      ensures Rest() == mem.blocks - {rec, buf}
    {
      this.mem, this.rec, this.buf, this.cap, this.len := mem, rec, buf, cap, len;
      cursor, prefcol, modified, undoN, redoN, lastTick, lastKind := 0, 0, false, 0, 0, 0, 0;
      undo := new Slot[24](_ => Slot(0, 0, 0));
      redo := new Slot[24](_ => Slot(0, 0, 0));
      new;
      assert Names(undo[..undoN]) == {} && Names(redo[..redoN]) == {};
      SyncIsPreferred(mem.blocks[buf][..len], 0);
    }

    /** ed_sync_prefcol. */
    method SyncPrefcol()
      requires Shape() && cursor <= len
      modifies this`prefcol
      ensures prefcol == Col(TextAt(mem.blocks, buf, len), cursor)
    {
      hide Apart;
      var _, col := LineCol(mem.blocks[buf][..len], cursor);
      prefcol := col;
    }

    // --- undo and redo -------------------------------------------------------

    /** ed_clear_stack: every snapshot of the stack is freed, once. `rest` is
        the other stack. */
    method ClearStack(st: array<Slot>, n: nat, ghost rest: seq<Slot>)
      requires mem.Valid() && n <= st.Length && Held(mem.blocks, rec, buf, cap, st[..n], rest)
      modifies mem
      ensures mem.Valid() && Held(mem.blocks, rec, buf, cap, [], rest)
      ensures mem.blocks[buf] == old(mem.blocks[buf])
      ensures Snaps(mem.blocks, rest) == old(Snaps(mem.blocks, rest))
      ensures Others(mem.blocks, rec, buf, [], rest) == old(Others(mem.blocks, rec, buf, st[..n], rest))
    {
      hide Held, Snaps, Others;
      HeldBuffer(mem.blocks, rec, buf, cap, st[..n], rest);
      var i := 0;
      while i < n
        invariant i <= n && mem.Valid() && Held(mem.blocks, rec, buf, cap, st[i..n], rest)
        invariant buf in mem.blocks && buf in old(mem.blocks) && mem.blocks[buf] == old(mem.blocks[buf])
        invariant Snaps(mem.blocks, rest) == old(Snaps(mem.blocks, rest))
        invariant Others(mem.blocks, rec, buf, st[i..n], rest) == old(Others(mem.blocks, rec, buf, st[..n], rest))
      {
        HeldTop(mem.blocks, rec, buf, cap, st[i..n], rest, 0);
        HeldDrop(mem.blocks, rec, buf, cap, st[i..n], rest);
        assert st[i..n][1..] == st[i + 1..n];
        mem.Kfree(st[i].ptr);
        HeldBuffer(mem.blocks, rec, buf, cap, st[i + 1..n], rest);
        i := i + 1;
      }
      assert st[n..n] == [];
    }

    /** The memmove of a full stack by one slot. */
    method ShiftDown(st: array<Slot>)
      requires st.Length == 24
      modifies st
      ensures st[..23] == old(st[1..24])
    {
      var i := 0;
      while i < 23
        invariant i <= 23
        invariant forall k :: 0 <= k < i ==> st[k] == old(st[k + 1])
        invariant forall k :: i <= k < 24 ==> st[k] == old(st[k])
      {
        st[i] := st[i + 1];
        i := i + 1;
      }
    }

    /** A full stack forgets its oldest step: its buffer is freed and the rest
        move down. The allocation `copy` is not the editor's yet. */
    method Forget(st: array<Slot>, ghost rest: seq<Slot>, ghost copy: int)
      requires mem.Valid() && st.Length == 24 && Held(mem.blocks, rec, buf, cap, st[..24], rest)
      requires copy in mem.blocks && copy !in Owned(rec, buf, st[..24], rest)
      modifies mem, st
      ensures mem.Valid() && Held(mem.blocks, rec, buf, cap, st[..23], rest)
      ensures mem.blocks[buf] == old(mem.blocks[buf])
      ensures copy in mem.blocks && mem.blocks[copy] == old(mem.blocks[copy])
      ensures copy !in Owned(rec, buf, st[..23], rest)
      ensures Snaps(mem.blocks, st[..23]) == old(Snaps(mem.blocks, st[..24]))[1..]
      ensures Snaps(mem.blocks, rest) == old(Snaps(mem.blocks, rest))
      ensures Others(mem.blocks, rec, buf, st[..23], rest) == old(Others(mem.blocks, rec, buf, st[..24], rest))
    {
      hide Held, Others, Snaps, Owned;
      ghost var us := st[..24];
      HeldTop(mem.blocks, rec, buf, cap, us, rest, 0);
      HeldDrop(mem.blocks, rec, buf, cap, us, rest);
      OwnedTail(rec, buf, us, rest);
      mem.Kfree(st[0].ptr);
      ShiftDown(st);
      assert st[..23] == us[1..];
      HeldBuffer(mem.blocks, rec, buf, cap, us[1..], rest);
    }

    /** ed_push_state onto one stack; `rest` is the other. */
    method PushState(st: array<Slot>, n: nat, ghost rest: seq<Slot>) returns (m: nat, ghost ok: bool)
      requires mem.Valid() && st.Length == 24 && n <= 24 && len <= cap
      requires Held(mem.blocks, rec, buf, cap, st[..n], rest)
      modifies mem, st
      ensures mem.Valid() && m <= 24 && Held(mem.blocks, rec, buf, cap, st[..m], rest)
      ensures TextAt(mem.blocks, buf, len) == old(TextAt(mem.blocks, buf, len))
      ensures Snaps(mem.blocks, st[..m])
           == Model.Pushed(old(Snaps(mem.blocks, st[..n])), old(Model.Snap(TextAt(mem.blocks, buf, len), cursor)), ok)
      ensures Snaps(mem.blocks, rest) == old(Snaps(mem.blocks, rest))
      ensures Others(mem.blocks, rec, buf, st[..m], rest) == old(Others(mem.blocks, rec, buf, st[..n], rest))
      ensures mem.reliable ==> ok
    {
      hide Held, Others, Snaps, Owned;
      ghost var b, us := mem.blocks, st[..n];
      HeldBuffer(b, rec, buf, cap, us, rest);
      var copy := mem.Kmalloc(if len > 0 then len else 1);
      if copy == 0 {
        return n, false;
      }
      mem.Memcpy(copy, buf, len);
      ghost var x, slot := mem.blocks[copy], Slot(copy, len, cursor);
      assert mem.blocks == b[copy := x] && |x| == Max(len, 1) && x[..len] == b[buf][..len];
      HeldBeside(b, rec, buf, cap, us, rest, copy, x);
      m := n;
      if m == 24 {
        Forget(st, rest, copy);
        m := 23;
      }
      ghost var kept := st[..m];
      HeldBuffer(mem.blocks, rec, buf, cap, kept, rest);
      HeldAdopt(mem.blocks, rec, buf, cap, kept, rest, slot);
      st[m] := Slot(copy, len, cursor);
      m := m + 1;
      assert st[..m] == kept + [slot];
      NotOther(b, rec, buf, us, rest, copy, x);
      ok := true;
    }

    /** ed_restore of the top of a stack, which it leaves. */
    method Restore(s: Slot, ghost us: seq<Slot>, ghost rest: seq<Slot>)
      requires mem.Valid() && Held(mem.blocks, rec, buf, cap, us + [s], rest) && s.cursor <= s.len
      modifies mem, this`buf, this`len, this`cap, this`cursor, this`modified, this`lastKind, this`prefcol
      ensures mem.Valid() && Held(mem.blocks, rec, buf, cap, us, rest)
      ensures len == s.len && cap == Max(len, 1) && cursor == s.cursor && modified && lastKind == 0
      ensures TextAt(mem.blocks, buf, len) == old(TextAt(mem.blocks, s.ptr, s.len))
      ensures |TextAt(mem.blocks, buf, len)| == len
      ensures prefcol == Col(TextAt(mem.blocks, buf, len), cursor)
      ensures Snaps(mem.blocks, us) == old(Snaps(mem.blocks, us))
      ensures Snaps(mem.blocks, rest) == old(Snaps(mem.blocks, rest))
      ensures Others(mem.blocks, rec, buf, us, rest) == old(Others(mem.blocks, rec, buf, us + [s], rest))
    {
      ghost var b, all := mem.blocks, us + [s];
      HeldRestore(b, rec, buf, cap, all, rest);
      assert all[|all| - 1] == s && all[..|all| - 1] == us;
      assert Snaps(b, all)[..|us|] == Snaps(b, us);
      hide Others, Snaps, Apart;
      mem.Kfree(buf);
      buf, len, cap := s.ptr, s.len, if s.len > 0 then s.len else 1;
      cursor, modified, lastKind := s.cursor, true, 0;
      var _, col := LineCol(mem.blocks[buf][..len], cursor);
      prefcol := col;
    }

    /** The present is pushed onto `to`, and the newest snapshot of `from` is
        restored. */
    method Exchange(from: array<Slot>, n: nat, to: array<Slot>, m: nat) returns (m2: nat, ghost ok: bool)
      requires mem.Valid() && from != to && from.Length == 24 && to.Length == 24 && 0 < n <= 24 && m <= 24 && len <= cap
      requires Held(mem.blocks, rec, buf, cap, from[..n], to[..m]) && from[n - 1].cursor <= from[n - 1].len
      modifies mem, to, this`buf, this`len, this`cap, this`cursor, this`modified, this`lastKind, this`prefcol
      ensures mem.Valid() && m2 <= 24 && Held(mem.blocks, rec, buf, cap, from[..n - 1], to[..m2])
      ensures len == from[n - 1].len && cap == Max(len, 1) && cursor == from[n - 1].cursor && modified && lastKind == 0
      ensures TextAt(mem.blocks, buf, len) == old(TextAt(mem.blocks, from[n - 1].ptr, from[n - 1].len))
      ensures |TextAt(mem.blocks, buf, len)| == len && prefcol == Col(TextAt(mem.blocks, buf, len), cursor)
      ensures Snaps(mem.blocks, from[..n - 1]) == old(Snaps(mem.blocks, from[..n - 1]))
      ensures Snaps(mem.blocks, to[..m2])
           == Model.Pushed(old(Snaps(mem.blocks, to[..m])), old(Model.Snap(TextAt(mem.blocks, buf, len), cursor)), ok)
      ensures Others(mem.blocks, rec, buf, from[..n - 1], to[..m2])
           == old(Others(mem.blocks, rec, buf, from[..n], to[..m]))
      ensures mem.reliable ==> ok
    {
      hide Held, Others, Snaps, Model.Pushed, TextAt;
      ghost var us, below, top := from[..n], from[..n - 1], from[n - 1];
      assert us == below + [top];
      HeldSwap(mem.blocks, rec, buf, cap, us, to[..m]);
      SameOthers(mem.blocks, rec, buf, us, to[..m]);
      TopSnap(mem.blocks, us);
      m2, ok := PushState(to, m, us);
      assert from[..n] == us && us[..n - 1] == below;
      HeldSwap(mem.blocks, rec, buf, cap, to[..m2], us);
      SameOthers(mem.blocks, rec, buf, to[..m2], us);
      TopSnap(mem.blocks, us);
      Restore(from[n - 1], below, to[..m2]);
    }

    /** ed_undo: the present goes to the redo stack when there is memory for it,
        and the newest undo snapshot becomes the text. */
    method Undo() returns (ghost ok: bool)
      requires Valid()
      modifies this, mem, undo, redo
      ensures Valid() && View() == Model.Undo(old(View()), ok) && Rest() == old(Rest())
      ensures mem.reliable ==> ok
    {
      hide Held, Others, Snaps, Model.Inv, TextAt, Model.Pushed;
      ok := true;
      if undoN == 0 {
        return;
      }
      ghost var e := View();
      Model.UndoKeepsInv(e, true);
      Model.UndoKeepsInv(e, false);
      SoundStacks(e);
      SoundTop(mem.blocks, undo[..undoN], e.undo);
      undoN := undoN - 1;
      assert undo[..undoN + 1][..undoN] == undo[..undoN];
      redoN, ok := Exchange(undo, undoN + 1, redo, redoN);
    }

    /** ed_redo. */
    method Redo() returns (ghost ok: bool)
      requires Valid()
      modifies this, mem, undo, redo
      ensures Valid() && View() == Model.Redo(old(View()), ok) && Rest() == old(Rest())
      ensures mem.reliable ==> ok
    {
      hide Held, Others, Snaps, Model.Inv, TextAt, Model.Pushed;
      ok := true;
      if redoN == 0 {
        return;
      }
      ghost var e := View();
      Model.UndoKeepsInv(e, true);
      Model.UndoKeepsInv(e, false);
      SoundStacks(e);
      SoundTop(mem.blocks, redo[..redoN], e.redo);
      HeldSwap(mem.blocks, rec, buf, cap, undo[..undoN], redo[..redoN]);
      SameOthers(mem.blocks, rec, buf, undo[..undoN], redo[..redoN]);
      redoN := redoN - 1;
      assert redo[..redoN + 1][..redoN] == redo[..redoN];
      undoN, ok := Exchange(redo, redoN + 1, undo, undoN);
      HeldSwap(mem.blocks, rec, buf, cap, redo[..redoN], undo[..undoN]);
      SameOthers(mem.blocks, rec, buf, redo[..redoN], undo[..undoN]);
    }

    // --- editing ---------------------------------------------------------------

    /** Nothing can be redone any more. */
    method ClearRedo()
      requires Shape()
      modifies this`redoN, mem
      ensures Shape() && View() == old(View()).(redo := []) && Rest() == old(Rest())
    {
      hide Held, Others, Snaps, TextAt;
      ghost var us, rs := undo[..undoN], redo[..redoN];
      HeldSwap(mem.blocks, rec, buf, cap, us, rs);
      SameOthers(mem.blocks, rec, buf, us, rs);
      HeldBuffer(mem.blocks, rec, buf, cap, us, rs);
      SameText(mem.blocks, buf, len);
      ClearStack(redo, redoN, us);
      redoN := 0;
      HeldSwap(mem.blocks, rec, buf, cap, [], us);
      SameOthers(mem.blocks, rec, buf, [], us);
      HeldBuffer(mem.blocks, rec, buf, cap, us, []);
      SameText(mem.blocks, buf, len);
      assert redo[..0] == [];
      NoSnaps(mem.blocks);
    }

    /** The state goes on the undo stack. */
    method TakeSnapshot() returns (ghost ok: bool)
      requires Shape()
      modifies this`undoN, mem, undo
      ensures Shape() && Rest() == old(Rest())
      ensures View() == old(View()).(undo := Model.Pushed(old(View()).undo, old(View()).Now(), ok))
      ensures mem.reliable ==> ok
    {
      hide Held, Others, Snaps, TextAt, Model.Pushed;
      ghost var rs := redo[..redoN];
      undoN, ok := PushState(undo, undoN, rs);
      HeldBuffer(mem.blocks, rec, buf, cap, undo[..undoN], rs);
    }

    /** ed_before_edit: a snapshot unless the edit joins a burst; redo is over. */
    method BeforeEdit(kind: nat, now: u32) returns (ghost ok: bool)
      requires Shape() && |View().undo| + |View().redo| <= 24
      modifies this`undoN, this`redoN, this`lastTick, this`lastKind, this`modified, mem, undo
      ensures Shape() && View() == Model.BeforeEdit(old(View()), kind, now, ok) && Rest() == old(Rest())
      ensures mem.reliable ==> ok
    {
      hide Held, Others, Snaps, TextAt, Model.Pushed;
      ok := true;
      if !(kind == lastKind && undoN > 0 && (now - lastTick) % 0x1_0000_0000 < 150) {
        ok := TakeSnapshot();
      }
      lastTick, lastKind := now, kind;
      ClearRedo();
      modified := true;
    }

    /** Room for one more byte: a bigger buffer replaces a full one. */
    method Grow() returns (ok: bool)
      requires Shape()
      modifies this`buf, this`cap, mem
      ensures Shape() && (ok ==> len < cap) && Rest() == old(Rest())
      ensures View() == old(View()).(cap :=
        if len + 1 <= old(cap) || !ok then old(cap) else if old(cap) < 256 then 256 else old(cap) * 2)
      ensures !ok ==> !mem.reliable && len + 1 > cap
    {
      hide Held, Others, Snaps, TextAt;
      ok := true;
      if len + 1 > cap {
        ghost var b, us, rs := mem.blocks, undo[..undoN], redo[..redoN];
        HeldBuffer(b, rec, buf, cap, us, rs);
        var newcap := if cap < 256 then 256 else cap * 2;
        var nb := mem.Kmalloc(newcap);
        if nb == 0 {
          return false;
        }
        mem.Memcpy(nb, buf, len);
        ghost var x := mem.blocks[nb];
        assert mem.blocks == b[nb := x];
        HeldGrow(b, rec, buf, cap, us, rs, nb, x);
        mem.Kfree(buf);
        SameText(b, buf, len);
        buf, cap := nb, newcap;
        SameText(mem.blocks, buf, len);
      }
    }

    /** The byte goes in at the cursor, which steps over it. */
    method Place(c: byte)
      requires Shape() && cursor <= len < cap
      modifies this`len, this`cursor, this`prefcol, mem
      ensures Shape() && Rest() == old(Rest())
      ensures |old(View()).text| == old(len)
      ensures View() ==
        Model.MovedTo(old(View()).(text := old(View().text[..cursor] + [c] + View().text[cursor..])), old(cursor) + 1)
    {
      hide Held, Others, Snaps, TextAt;
      ghost var b, us, rs := mem.blocks, undo[..undoN], redo[..redoN];
      HeldBuffer(b, rec, buf, cap, us, rs);
      mem.Memmove(buf, cursor + 1, cursor, len - cursor);
      mem.Put(buf, cursor, c);
      ghost var x := mem.blocks[buf];
      assert mem.blocks == b[buf := x];
      HeldWrite(b, rec, buf, cap, us, rs, x);
      SameText(b, buf, len);
      InsertedBytes(b[buf], len, cursor, c, x);
      len, cursor := len + 1, cursor + 1;
      SameText(mem.blocks, buf, len);
      SyncPrefcol();
    }

    /** The byte at `pos` goes, and the cursor stays there. */
    method Cut(pos: nat)
      requires Shape() && pos < len
      modifies this`len, this`cursor, this`prefcol, mem
      ensures Shape() && Rest() == old(Rest())
      ensures |old(View()).text| == old(len)
      ensures View() == Model.MovedTo(old(View()).(text := old(View().text[..pos] + View().text[pos + 1..])), pos)
    {
      hide Held, Others, Snaps, TextAt;
      ghost var b, us, rs := mem.blocks, undo[..undoN], redo[..redoN];
      HeldBuffer(b, rec, buf, cap, us, rs);
      mem.Memmove(buf, pos, pos + 1, len - pos - 1);
      ghost var x := mem.blocks[buf];
      assert mem.blocks == b[buf := x];
      HeldWrite(b, rec, buf, cap, us, rs, x);
      SameText(b, buf, len);
      DeletedBytes(b[buf], len, pos, x);
      len, cursor := len - 1, pos;
      SameText(mem.blocks, buf, len);
      SyncPrefcol();
    }

    /** ed_insert. */
    method Insert(c: byte, now: u32) returns (ghost snapOk: bool, ghost growOk: bool)
      requires Valid()
      modifies this, mem, undo
      ensures Valid() && View() == Model.Insert(old(View()), c, now, snapOk, growOk) && Rest() == old(Rest())
      ensures mem.reliable ==> snapOk && growOk
    {
      hide Held, Others, Snaps, Model.Inv, Model.BeforeEdit;
      snapOk, growOk := true, true;
      ghost var e := View();
      InvBounds(e);
      HeldBuffer(mem.blocks, rec, buf, cap, undo[..undoN], redo[..redoN]);
      if len >= 0x8000 {
        return;
      }
      snapOk := BeforeEdit(1, now);
      HeldBuffer(mem.blocks, rec, buf, cap, undo[..undoN], redo[..redoN]);
      BeforeEditKeepsText(e, 1, now, snapOk);
      var room := Grow();
      growOk := room;
      HeldBuffer(mem.blocks, rec, buf, cap, undo[..undoN], redo[..redoN]);
      Model.InsertKeepsInv(e, c, now, snapOk, growOk);
      if room {
        Place(c);
      }
    }

    /** ed_delete_at. */
    method DeleteAt(pos: int, now: u32) returns (ghost snapOk: bool)
      requires Valid()
      modifies this, mem, undo
      ensures Valid() && View() == Model.DeleteAt(old(View()), pos, now, snapOk) && Rest() == old(Rest())
      ensures mem.reliable ==> snapOk
    {
      hide Held, Others, Snaps, Model.Inv, Model.BeforeEdit;
      snapOk := true;
      ghost var e := View();
      InvBounds(e);
      HeldBuffer(mem.blocks, rec, buf, cap, undo[..undoN], redo[..redoN]);
      if pos < 0 || pos >= len {
        return;
      }
      snapOk := BeforeEdit(2, now);
      Model.DeleteKeepsInv(e, pos, now, snapOk);
      BeforeEditKeepsText(e, 2, now, snapOk);
      Cut(pos);
    }

    // --- moving ----------------------------------------------------------------

    /** Moves the cursor and takes its column as the preferred one. */
    method MoveTo(pos: nat)
      requires Shape() && |View().text| == len && pos <= len
      modifies this`cursor, this`prefcol
      ensures Shape() && View() == Model.MovedTo(old(View()), pos) && Rest() == old(Rest())
    {
      hide Held, Others, Snaps;
      cursor := pos;
      SyncPrefcol();
    }

    method Left()
      requires Valid()
      modifies this`cursor, this`prefcol
      ensures Valid() && View() == Model.Step(old(View()), Model.Left) && Rest() == old(Rest())
    {
      hide Held, Others, Snaps, Model.Inv;
      Model.StepKeepsInv(View(), Model.Left);
      InvBounds(View());
      HeldBuffer(mem.blocks, rec, buf, cap, undo[..undoN], redo[..redoN]);
      MoveTo(if cursor > 0 then cursor - 1 else cursor);
    }

    method Right()
      requires Valid()
      modifies this`cursor, this`prefcol
      ensures Valid() && View() == Model.Step(old(View()), Model.Right) && Rest() == old(Rest())
    {
      hide Held, Others, Snaps, Model.Inv;
      Model.StepKeepsInv(View(), Model.Right);
      InvBounds(View());
      HeldBuffer(mem.blocks, rec, buf, cap, undo[..undoN], redo[..redoN]);
      MoveTo(if cursor < len then cursor + 1 else cursor);
    }

    /** KEY_HOME. */
    method Home()
      requires Valid()
      modifies this`cursor, this`prefcol
      ensures Valid() && View() == Model.Step(old(View()), Model.Home) && Rest() == old(Rest())
    {
      hide Held, Others, Snaps, Model.Inv;
      Model.StepKeepsInv(View(), Model.Home);
      InvBounds(View());
      HeldBuffer(mem.blocks, rec, buf, cap, undo[..undoN], redo[..redoN]);
      var text := mem.blocks[buf][..len];
      var line, _ := LineCol(text, cursor);
      var start := FindLineStart(text, line);
      MoveTo(start);
    }

    /** KEY_END. */
    method End()
      requires Valid()
      modifies this`cursor, this`prefcol
      ensures Valid() && View() == Model.Step(old(View()), Model.End) && Rest() == old(Rest())
    {
      hide Held, Others, Snaps, Model.Inv;
      Model.StepKeepsInv(View(), Model.End);
      InvBounds(View());
      HeldBuffer(mem.blocks, rec, buf, cap, undo[..undoN], redo[..redoN]);
      var text := mem.blocks[buf][..len];
      var line, _ := LineCol(text, cursor);
      var start := FindLineStart(text, line);
      var ll := FindLineLen(text, start);
      MoveTo(start + ll);
    }

    /** ed_vertical: the preferred column stays. */
    method UpDown(dir: int)
      requires Valid()
      modifies this`cursor
      ensures Valid() && View() == Model.Step(old(View()), Model.UpDown(dir)) && Rest() == old(Rest())
    {
      hide Held, Others, Snaps, Model.Inv;
      Model.StepKeepsInv(View(), Model.UpDown(dir));
      InvBounds(View());
      HeldBuffer(mem.blocks, rec, buf, cap, undo[..undoN], redo[..redoN]);
      var text := mem.blocks[buf][..len];
      var line, _ := LineCol(text, cursor);
      var total := CountLines(text);
      var goal := line + dir;
      if goal < 0 || goal >= total {
        return;
      }
      var start := FindLineStart(text, goal);
      var ll := FindLineLen(text, start);
      cursor := start + if prefcol < ll then prefcol else ll;
    }

    /** editor_click on text line `line` (counted with the scroll position) and
        column `col`: both are clipped to the text. */
    method Click(line: nat, col: int)
      requires Valid()
      modifies this`cursor, this`prefcol
      ensures Valid() && View() == Model.Step(old(View()), Model.Click(line, col)) && Rest() == old(Rest())
    {
      hide Held, Others, Snaps, Model.Inv;
      Model.StepKeepsInv(View(), Model.Click(line, col));
      InvBounds(View());
      HeldBuffer(mem.blocks, rec, buf, cap, undo[..undoN], redo[..redoN]);
      var text := mem.blocks[buf][..len];
      var total := CountLines(text);
      var goal := if line >= total then total - 1 else line;
      var start := FindLineStart(text, goal);
      var ll := FindLineLen(text, start);
      var c := if col < 0 then 0 else col;
      if c > ll {
        c := ll;
      }
      cursor, prefcol := start + c, c;
    }

    /** Ctrl+S, told how fs_write ended. */
    method Save(ok: bool, ghost how: Ending)
      requires Valid() && ok == how.Done?
      modifies this`modified
      ensures Valid() && View() == Model.Step(old(View()), Model.Save(how)) && Rest() == old(Rest())
    {
      hide Held, Others, Snaps, AtPreferred;
      if ok {
        modified := false;
      }
    }

    // --- keys ------------------------------------------------------------------

    /** Four spaces for a tab; `ticks` are the timer readings. */
    method Tab(ticks: seq<u32>) returns (ghost answers: seq<Model.Chance>)
      requires Valid() && |ticks| == 4
      modifies this, mem, undo
      ensures |answers| == 4 && Valid() && Rest() == old(Rest())
      ensures View() == Model.Run(old(View()), Model.KeyActions(old(View()), 9, answers, Done))
      ensures forall k :: 0 <= k < 4 ==> answers[k].now == ticks[k]
      ensures mem.reliable ==> forall k :: 0 <= k < 4 ==> answers[k].snapOk && answers[k].growOk
    {
      hide Held, Others, Snaps, Model.Inv, Model.Insert, Model.KeyActions, Model.Run;
      answers := [];
      ghost var e := View();
      Model.RunNone(e);
      ghost var acts: seq<Model.Action> := [];
      var k := 0;
      while k < 4
        invariant k <= 4 && |answers| == k && |acts| == k && Valid() && Rest() == old(Rest())
        invariant View() == Model.Run(e, acts)
        invariant forall j :: 0 <= j < k ==>
          acts[j] == Model.Type(32, answers[j].now, answers[j].snapOk, answers[j].growOk)
        invariant forall j :: 0 <= j < k ==> answers[j].now == ticks[j]
        invariant mem.reliable ==> forall j :: 0 <= j < k ==> answers[j].snapOk && answers[j].growOk
      {
        ghost var snapOk, growOk := Insert(32, ticks[k]);
        ghost var a := Model.Type(32, ticks[k], snapOk, growOk);
        Model.RunNext(e, acts, a);
        answers, acts := answers + [Model.Chance(ticks[k], snapOk, growOk)], acts + [a];
        k := k + 1;
      }
      Model.TabActions(e, answers, acts);
    }

    /** One timer reading, one snapshot and one growth outcome. */
    ghost function Once(ticks: seq<u32>, snapOk: bool, growOk: bool): (answers: seq<Model.Chance>)
      requires |ticks| == 4
      ensures |answers| == 4
    {
      seq(4, k requires 0 <= k < 4 => Model.Chance(ticks[k], snapOk, growOk))
    }

    /** editor_key. */
    method Key(ch: byte, ticks: seq<u32>, ok: bool, ghost saved: Ending) returns (ghost answers: seq<Model.Chance>)
      requires Valid() && |ticks| == 4 && ok == saved.Done?
      modifies this, mem, undo, redo
      ensures |answers| == 4 && Valid() && Rest() == old(Rest())
      ensures View() == Model.Run(old(View()), Model.KeyActions(old(View()), ch, answers, saved))
      ensures forall k :: 0 <= k < 4 ==> answers[k].now == ticks[k]
      ensures mem.reliable ==> forall k :: 0 <= k < 4 ==> answers[k].snapOk && answers[k].growOk
    {
      hide Held, Others, Snaps, Model.Inv, Model.Run, TextAt;
      hide Model.Insert, Model.DeleteAt, Model.Undo, Model.Redo, Model.MovedTo, Model.Clicked;
      ghost var e := View();
      ghost var snapOk, growOk := true, true;
      if ch == 9 {
        answers := Tab(ticks);
        return;
      }
      ghost var idle := false;
      match ch {
        case 0x80 => Left();
        case 0x81 => Right();
        case 0x82 => UpDown(-1);
        case 0x83 => UpDown(1);
        case 0x84 => Home();
        case 0x85 => End();
        case 0x86 => snapOk := DeleteAt(cursor, ticks[0]);
        case 8 =>
          if cursor > 0 {
            snapOk := DeleteAt(cursor - 1, ticks[0]);
          } else {
            idle := true;
          }
        case 10 => snapOk, growOk := Insert(10, ticks[0]);
        case 0x13 => Save(ok, saved);
        case 0x1A => snapOk := Undo();
        case 0x19 => snapOk := Redo();
        case _ =>
          if 32 <= ch < 127 {
            snapOk, growOk := Insert(ch, ticks[0]);
          } else {
            idle := true;
          }
      }
      answers := Once(ticks, snapOk, growOk);
      ghost var acts := Model.KeyActions(e, ch, answers, saved);
      if idle {
        Model.RunNone(e);
      } else {
        Model.RunOne(e, acts[0]);
        assert acts == [acts[0]];
      }
    }

    // --- opening and closing ---------------------------------------------------

    /** open_editor: a record and a buffer, given back when there is no memory or
        no window. `size` is what the first fs_read reports, `got` what the
        second one copies, however it ends; `slot` says whether add_window finds
        an unused window. The text has the reported size; past what was copied it
        is whatever the buffer held. */
    static method Open(mem: Memory, size: int, got: seq<byte>, slot: bool) returns (e: EditorWindow?)
      requires mem.Valid() && |got| <= Max(size, 0)
      modifies mem
      ensures mem.Valid() && (mem.reliable && slot ==> e != null)
      ensures e == null ==> mem.blocks == old(mem.blocks)
      ensures e != null ==>
        && fresh(e) && fresh(e.undo) && fresh(e.redo) && e.mem == mem && e.Valid() && e.Rest() == old(mem.blocks)
        && got <= e.View().text && |e.View().text| == Max(size, 0)
        && e.View() == Model.Editor(e.View().text, if size > 0 then size + 64 else 256, 0, 0, false, [], [], 0, 0)
    {
      hide EditorWindow.Shape, AtPreferred, Model.Inv, EditorWindow.Rest, EditorWindow.Valid;
      ghost var was := mem.blocks;
      var rec := mem.Kmalloc(RECORD_SIZE);
      if rec == 0 {
        return null;
      }
      ghost var record := mem.blocks[rec];
      TwoTaken(was, rec, rec, record, record);
      var cap := if size > 0 then size + 64 else 256;
      var buf := mem.Kmalloc(cap);
      if buf == 0 {
        mem.Kfree(rec);
        return null;
      }
      if size > 0 {
        mem.Load(buf, got);
      }
      TwoTaken(was, rec, buf, record, mem.blocks[buf]);
      if !slot {
        mem.Kfree(buf);
        mem.Kfree(rec);
        return null;
      }
      e := new EditorWindow(mem, rec, buf, cap, if size > 0 then size else 0);
    }

    /** editor_close: every allocation of the editor is freed, once each, and
        nothing else. */
    method Close()
      requires Valid()
      modifies mem
      ensures mem.Valid() && mem.blocks == old(Rest())
    {
      hide Held, Snaps, Model.Inv, Others;
      ghost var us, rs := undo[..undoN], redo[..redoN];
      ClearStack(undo, undoN, rs);
      HeldSwap(mem.blocks, rec, buf, cap, [], rs);
      SameOthers(mem.blocks, rec, buf, [], rs);
      ClearStack(redo, redoN, []);
      HeldBuffer(mem.blocks, rec, buf, cap, [], []);
      BareOthers(mem.blocks, rec, buf);
      mem.Kfree(buf);
      mem.Kfree(rec);
    }
  }

  // --- small facts about what an editor holds --------------------------------

  lemma HeldBuffer(b: Blocks, rec: int, buf: int, cap: nat, us: seq<Slot>, rs: seq<Slot>)
    requires Held(b, rec, buf, cap, us, rs)
    ensures buf in b && |b[buf]| == cap && rec in b && rec != buf
  {
  }

  lemma OwnedTail(rec: int, buf: int, us: seq<Slot>, rs: seq<Slot>)
    requires |us| > 0
    ensures Owned(rec, buf, us[1..], rs) <= Owned(rec, buf, us, rs) && us[0].ptr in Owned(rec, buf, us, rs)
  {
    assert forall k :: 1 <= k < |us| ==> us[k] == us[1..][k - 1];
  }

  lemma NotOther(b: Blocks, rec: int, buf: int, us: seq<Slot>, rs: seq<Slot>, p: int, x: seq<byte>)
    requires p !in b
    ensures Others(b, rec, buf, us, rs)[p := x] - {p} == Others(b, rec, buf, us, rs)
  {
  }

  lemma SameOthers(b: Blocks, rec: int, buf: int, us: seq<Slot>, rs: seq<Slot>)
    ensures Others(b, rec, buf, us, rs) == Others(b, rec, buf, rs, us)
  {
    assert Owned(rec, buf, us, rs) == Owned(rec, buf, rs, us);
  }

  lemma TopSnap(b: Blocks, us: seq<Slot>)
    requires |us| > 0
    ensures Snaps(b, us)[|us| - 1] == Model.Snap(TextAt(b, us[|us| - 1].ptr, us[|us| - 1].len), us[|us| - 1].cursor)
    ensures Snaps(b, us[..|us| - 1]) == Snaps(b, us)[..|us| - 1]
  {
  }

  lemma SoundStacks(e: Model.Editor)
    requires Model.Inv(e)
    ensures |e.undo| > 0 ==> Model.Sound(e.undo[|e.undo| - 1])
    ensures |e.redo| > 0 ==> Model.Sound(e.redo[|e.redo| - 1])
  {
  }

  /** The newest snapshot of a sound stack. */
  lemma SoundTop(b: Blocks, us: seq<Slot>, snaps: seq<Model.Snap>)
    requires |us| > 0 && snaps == Snaps(b, us)
    requires Model.Sound(snaps[|us| - 1])
    ensures snaps[|us| - 1] == Model.Snap(TextAt(b, us[|us| - 1].ptr, us[|us| - 1].len), us[|us| - 1].cursor)
    ensures us[|us| - 1].cursor <= us[|us| - 1].len
    ensures Snaps(b, us[..|us| - 1]) == snaps[..|us| - 1]
  {
  }

  lemma SameText(b: Blocks, buf: int, len: nat)
    requires buf in b && len <= |b[buf]|
    ensures TextAt(b, buf, len) == b[buf][..len]
  {
  }

  lemma NoSnaps(b: Blocks)
    ensures Snaps(b, []) == []
  {
  }

  lemma InvBounds(e: Model.Editor)
    requires Model.Inv(e)
    ensures e.cursor <= |e.text| <= e.cap && e.cap > 0 && |e.undo| + |e.redo| <= 24
  {
  }

  lemma BeforeEditKeepsText(e: Model.Editor, kind: nat, now: u32, ok: bool)
    ensures var b := Model.BeforeEdit(e, kind, now, ok);
      b.text == e.text && b.cursor == e.cursor && b.cap == e.cap && b.prefcol == e.prefcol
  {
  }

  /** memmove and store insert a byte. */
  lemma InsertedBytes(b: seq<byte>, len: nat, cursor: nat, c: byte, x: seq<byte>)
    requires cursor <= len < |b|
    requires var m := b[..cursor + 1] + b[cursor..len] + b[len + 1..]; x == m[..cursor] + [c] + m[cursor + 1..]
    ensures |x| == |b| && x[..len + 1] == b[..len][..cursor] + [c] + b[..len][cursor..]
  {
  }

  lemma DeletedBytes(b: seq<byte>, len: nat, pos: nat, x: seq<byte>)
    requires pos < len <= |b| && x == b[..pos] + b[pos + 1..len] + b[len - 1..]
    ensures |x| == |b| && x[..len - 1] == b[..len][..pos] + b[..len][pos + 1..]
  {
  }

  lemma BareOthers(b: Blocks, rec: int, buf: int)
    ensures Others(b, rec, buf, [], []) == b - {buf} - {rec}
  {
    assert Names([]) == {};
  }

  lemma HeldTop(b: Blocks, rec: int, buf: int, cap: nat, us: seq<Slot>, rs: seq<Slot>, k: nat)
    requires Held(b, rec, buf, cap, us, rs) && k < |us|
    ensures us[k].ptr in b && |b[us[k].ptr]| == Max(us[k].len, 1) && us[k].ptr != buf
  {
  }
}
