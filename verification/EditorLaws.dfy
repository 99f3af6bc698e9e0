/** What edits, undo and redo, and keys show to whoever uses the editor, in
    bytes, offsets and timer readings. */
module EditorLaws {
  import opened Bytes
  import opened TextGeometry
  import opened SaveEnding
  import opened EditorModel

  // --- one edit -------------------------------------------------------------

  /** What an insertion leaves: the byte at the old cursor, everything behind it
      one further on. */
  lemma InsertionShows(e: Editor, c: byte, now: u32, snapOk: bool, growOk: bool)
    requires Inv(e)
    ensures var r := Insert(e, c, now, snapOk, growOk);
      if |e.text| >= 32768 then r == e
      else if |e.text| == e.cap && !growOk then r.Now() == e.Now() && r.modified && r.redo == []
      else
        && |r.text| == |e.text| + 1 && r.text[e.cursor] == c && r.cursor == e.cursor + 1 && r.modified && r.redo == []
        && (forall k :: 0 <= k < e.cursor ==> r.text[k] == e.text[k])
        && (forall k :: e.cursor <= k < |e.text| ==> r.text[k + 1] == e.text[k])
        && r.prefcol == Col(r.text, r.cursor)
        && r.cap == if |e.text| < e.cap then e.cap else if e.cap < 256 then 256 else 2 * e.cap
  {
    hide AtPreferred, Sound, Col;
  }

  /** What a deletion at any position leaves; outside the text there is none. */
  lemma DeletionShows(e: Editor, pos: int, now: u32, snapOk: bool)
    requires Inv(e)
    ensures var r := DeleteAt(e, pos, now, snapOk);
      if pos < 0 || pos >= |e.text| then r == e
      else
        && |r.text| == |e.text| - 1 && r.cursor == pos && r.modified && r.redo == [] && r.cap == e.cap
        && (forall k :: 0 <= k < pos ==> r.text[k] == e.text[k])
        && (forall k :: pos <= k < |r.text| ==> r.text[k] == e.text[k + 1])
        && r.prefcol == Col(r.text, r.cursor)
  {
    hide AtPreferred, Sound, Col;
  }

  // --- which edits are undone together --------------------------------------

  /** `later` comes within a second and a half of `now` on the 32-bit timer. */
  predicate Soon(now: u32, later: u32) {
    (later - now) % 0x1_0000_0000 < 150
  }

  /** What the next undo shows. */
  ghost function Undone(e: Editor, ok: bool): Snap
    requires Inv(e)
  {
    Undo(e, ok).Now()
  }

  lemma TopShows(e: Editor, ok: bool)
    requires Inv(e)
    ensures Undone(e, ok) == if |e.undo| > 0 then e.undo[|e.undo| - 1] else e.Now()
  {
    hide AtPreferred, Sound;
  }

  lemma InsertHistory(e: Editor, c: byte, now: u32)
    requires Inv(e) && |e.text| < 32768
    ensures var r := Insert(e, c, now, true, true);
      && Inv(r) && r.lastKind == 1 && r.lastTick == now && |r.undo| > 0
      && r.undo[|r.undo| - 1] ==
           if e.lastKind == 1 && |e.undo| > 0 && Soon(e.lastTick, now) then e.undo[|e.undo| - 1] else e.Now()
  {
    InsertKeepsInv(e, c, now, true, true);
    hide AtPreferred, Sound;
  }

  lemma DeleteHistory(e: Editor, pos: int, now: u32)
    requires Inv(e) && 0 <= pos < |e.text|
    ensures var r := DeleteAt(e, pos, now, true);
      && Inv(r) && r.lastKind == 2 && r.lastTick == now && |r.undo| > 0
      && r.undo[|r.undo| - 1] ==
           if e.lastKind == 2 && |e.undo| > 0 && Soon(e.lastTick, now) then e.undo[|e.undo| - 1] else e.Now()
  {
    DeleteKeepsInv(e, pos, now, true);
    hide AtPreferred, Sound;
  }

  /** A deletion right after an insertion is undone alone, however soon it comes. */
  lemma DeletionAfterInsertion(e: Editor, c: byte, pos: int, now: u32, later: u32, ok: bool)
    requires Inv(e) && |e.text| < 32768 && 0 <= pos <= |e.text|
    ensures var t := Insert(e, c, now, true, true);
      && |t.text| == |e.text| + 1 && Inv(DeleteAt(t, pos, later, true))
      && Undone(DeleteAt(t, pos, later, true), ok) == t.Now()
  {
    var t := Insert(e, c, now, true, true);
    InsertionShows(e, c, now, true, true);
    InsertHistory(e, c, now);
    hide Inv, Insert, DeleteAt, Undone;
    DeleteHistory(t, pos, later);
    TopShows(DeleteAt(t, pos, later, true), ok);
  }

  /** And an insertion right after a deletion. */
  lemma InsertionAfterDeletion(e: Editor, c: byte, pos: int, now: u32, later: u32, ok: bool)
    requires Inv(e) && 0 <= pos < |e.text| <= 32768
    ensures var t := DeleteAt(e, pos, now, true);
      && |t.text| == |e.text| - 1 && Inv(Insert(t, c, later, true, true))
      && Undone(Insert(t, c, later, true, true), ok) == t.Now()
  {
    var t := DeleteAt(e, pos, now, true);
    DeletionShows(e, pos, now, true);
    DeleteHistory(e, pos, now);
    hide Inv, Insert, DeleteAt, Undone;
    InsertHistory(t, c, later);
    TopShows(Insert(t, c, later, true, true), ok);
  }

  /** An insertion after an insertion: undo shows the text between the two, or,
      if they came soon after each other, what it would have shown before. */
  lemma SecondInsertion(e: Editor, c: byte, d: byte, now: u32, later: u32, ok: bool)
    requires Inv(e) && |e.text| < 32767
    ensures var t := Insert(e, c, now, true, true);
      && |t.text| == |e.text| + 1 && Inv(t) && Inv(Insert(t, d, later, true, true))
      && Undone(Insert(t, d, later, true, true), ok) == if Soon(now, later) then Undone(t, ok) else t.Now()
  {
    var t := Insert(e, c, now, true, true);
    InsertionShows(e, c, now, true, true);
    InsertHistory(e, c, now);
    hide Inv, Insert, Undone;
    InsertHistory(t, d, later);
    TopShows(t, ok);
    TopShows(Insert(t, d, later, true, true), ok);
  }

  /** Two insertions, the first undone alone: one undo takes back both if and
      only if the second came soon after the first. */
  lemma InsertionsTogetherIff(e: Editor, c: byte, d: byte, now: u32, later: u32, ok: bool)
    requires Inv(e) && |e.text| < 32767
    requires Inv(Insert(e, c, now, true, true)) && Undone(Insert(e, c, now, true, true), ok) == e.Now()
    ensures Inv(Insert(Insert(e, c, now, true, true), d, later, true, true))
    ensures Undone(Insert(Insert(e, c, now, true, true), d, later, true, true), ok).text == e.text <==>
      (later - now) % 0x1_0000_0000 < 150
  {
    SecondInsertion(e, c, d, now, later, ok);
    hide Inv, Insert, Undone;
  }

  lemma SecondDeletion(e: Editor, pos: int, at: int, now: u32, later: u32, ok: bool)
    requires Inv(e) && 0 <= pos < |e.text| && 0 <= at < |e.text| - 1
    ensures var t := DeleteAt(e, pos, now, true);
      && |t.text| == |e.text| - 1 && Inv(t) && Inv(DeleteAt(t, at, later, true))
      && Undone(DeleteAt(t, at, later, true), ok) == if Soon(now, later) then Undone(t, ok) else t.Now()
  {
    var t := DeleteAt(e, pos, now, true);
    DeletionShows(e, pos, now, true);
    DeleteHistory(e, pos, now);
    hide Inv, DeleteAt, Undone;
    DeleteHistory(t, at, later);
    TopShows(t, ok);
    TopShows(DeleteAt(t, at, later, true), ok);
  }

  /** The same for two deletions. */
  lemma DeletionsTogetherIff(e: Editor, pos: int, at: int, now: u32, later: u32, ok: bool)
    requires Inv(e) && 0 <= pos < |e.text| && 0 <= at < |e.text| - 1
    requires Inv(DeleteAt(e, pos, now, true)) && Undone(DeleteAt(e, pos, now, true), ok) == e.Now()
    ensures Inv(DeleteAt(DeleteAt(e, pos, now, true), at, later, true))
    ensures Undone(DeleteAt(DeleteAt(e, pos, now, true), at, later, true), ok).text == e.text <==>
      (later - now) % 0x1_0000_0000 < 150
  {
    SecondDeletion(e, pos, at, now, later, ok);
    hide Inv, DeleteAt, Undone;
  }

  /** What undo and redo leave behind, beyond the text they show: the mark is
      set, the column is the cursor's, and no burst is open. */
  lemma StepBackLeaves(e: Editor, ok: bool)
    requires Inv(e)
    ensures var u := Undo(e, ok);
      && Inv(u) && (|e.undo| == 0 ==> u == e)
      && (|e.undo| > 0 ==>
           u.modified && u.lastKind == 0 && u.prefcol == Col(u.text, u.cursor) && u.cap == Max(|u.text|, 1))
    ensures var r := Redo(e, ok);
      && Inv(r) && (|e.redo| == 0 ==> r == e)
      && (|e.redo| > 0 ==>
           r.modified && r.lastKind == 0 && r.prefcol == Col(r.text, r.cursor) && r.cap == Max(|r.text|, 1))
    ensures var u := Undo(e, ok);
      |e.undo| > 0 ==> u.undo + [u.Now()] == e.undo && u.redo == (if ok then e.redo + [e.Now()] else e.redo)
    ensures var r := Redo(e, ok);
      |e.redo| > 0 ==> r.redo + [r.Now()] == e.redo && r.undo == (if ok then e.undo + [e.Now()] else e.undo)
  {
    UndoKeepsInv(e, ok);
    hide AtPreferred, Col;
  }

  /** The first edit after an undo or redo that did something is undone alone. */
  lemma EditAfterUndo(e: Editor, u: Editor, c: byte, pos: int, now: u32, ok: bool, again: bool)
    requires Inv(e) && ((|e.undo| > 0 && u == Undo(e, ok)) || (|e.redo| > 0 && u == Redo(e, ok)))
    ensures Inv(u)
    ensures |u.text| < 32768 ==>
      Inv(Insert(u, c, now, true, true)) && Undone(Insert(u, c, now, true, true), again) == u.Now()
    ensures 0 <= pos < |u.text| ==>
      Inv(DeleteAt(u, pos, now, true)) && Undone(DeleteAt(u, pos, now, true), again) == u.Now()
  {
    StepBackLeaves(e, ok);
    hide Inv, Insert, DeleteAt, Undone, Undo, Redo;
    if |u.text| < 32768 {
      InsertHistory(u, c, now);
      TopShows(Insert(u, c, now, true, true), again);
    }
    if 0 <= pos < |u.text| {
      DeleteHistory(u, pos, now);
      TopShows(DeleteAt(u, pos, now, true), again);
    }
  }

  /** Undo takes back a deletion that joined no other. */
  lemma DeletionUndone(e: Editor, pos: int, now: u32, ok: bool)
    requires Inv(e) && 0 <= pos < |e.text|
    requires e.lastKind != 2 || |e.undo| == 0 || (now - e.lastTick) % 0x1_0000_0000 >= 150
    ensures Inv(DeleteAt(e, pos, now, true)) && Undone(DeleteAt(e, pos, now, true), ok) == e.Now()
  {
    hide Inv, DeleteAt, Undone;
    DeleteHistory(e, pos, now);
    TopShows(DeleteAt(e, pos, now, true), ok);
  }

  /** Twenty-four steps can be taken back; the next one forgets the oldest. */
  lemma OldestForgotten(stack: seq<Snap>, s: Snap)
    requires |stack| <= 24
    ensures var r := Pushed(stack, s, true);
      && |r| == Min(|stack| + 1, 24) && r[|r| - 1] == s
      && forall k :: 0 <= k < |r| - 1 ==> r[k] == stack[k + |stack| + 1 - |r|]
    ensures Pushed(stack, s, false) == stack
  {
  }

  // --- keys -----------------------------------------------------------------

  /** What a key leaves. */
  ghost function AfterKey(e: Editor, ch: byte, answers: seq<Chance>, saved: Ending): Editor
    requires Inv(e) && |answers| == 4
  {
    Run(e, KeyActions(e, ch, answers, saved))
  }

  lemma ArrowsLeftRight(e: Editor, answers: seq<Chance>, saved: Ending)
    requires Inv(e) && |answers| == 4
    ensures var l := AfterKey(e, 0x80, answers, saved);
      && l.cursor == Max(e.cursor - 1, 0) && l.text == e.text && l.prefcol == Col(e.text, l.cursor)
      && l.undo == e.undo && l.redo == e.redo && l.modified == e.modified
    ensures var r := AfterKey(e, 0x81, answers, saved);
      && r.cursor == Min(e.cursor + 1, |e.text|) && r.text == e.text && r.prefcol == Col(e.text, r.cursor)
      && r.undo == e.undo && r.redo == e.redo && r.modified == e.modified
  {
    InvCursor(e);
    hide Inv, Col;
    RunOne(e, Left);
    RunOne(e, Right);
  }

  /** Up and Down go to the neighbouring line, if there is one, as near to the
      preferred column as it allows. */
  lemma ArrowUp(e: Editor, answers: seq<Chance>, saved: Ending)
    requires Inv(e) && |answers| == 4
    ensures var l, u := Line(e.text, e.cursor), AfterKey(e, 0x82, answers, saved);
      && u.cursor <= |e.text| && u == e.(cursor := u.cursor)
      && if l == 0 then u.cursor == e.cursor
         else Line(e.text, u.cursor) == l - 1 && Col(e.text, u.cursor) == Min(e.prefcol, Width(e.text, l - 1))
  {
    RunOne(e, UpDown(-1));
    InvPreferred(e);
    OffsetToPlace(e.text, e.cursor);
    MovesToLine(e, -1);
    hide Inv, Line, Col, Width, LineCount, Vertical;
  }

  lemma ArrowDown(e: Editor, answers: seq<Chance>, saved: Ending)
    requires Inv(e) && |answers| == 4
    ensures var l, d := Line(e.text, e.cursor), AfterKey(e, 0x83, answers, saved);
      && d.cursor <= |e.text| && d == e.(cursor := d.cursor)
      && if l == LineCount(e.text) - 1 then d.cursor == e.cursor
         else Line(e.text, d.cursor) == l + 1 && Col(e.text, d.cursor) == Min(e.prefcol, Width(e.text, l + 1))
  {
    RunOne(e, UpDown(1));
    InvPreferred(e);
    OffsetToPlace(e.text, e.cursor);
    MovesToLine(e, 1);
    hide Inv, Line, Col, Width, LineCount, Vertical;
  }

  lemma InvPreferred(e: Editor)
    requires Inv(e)
    ensures e.cursor <= |e.text| && 0 <= e.prefcol
  {
  }

  lemma MovesToLine(e: Editor, dir: int)
    requires e.cursor <= |e.text| && 0 <= e.prefcol
    ensures var l, pos := Line(e.text, e.cursor) + dir, Vertical(e.text, e.cursor, e.prefcol, dir);
      if 0 <= l < LineCount(e.text) then
        Line(e.text, pos) == l && Col(e.text, pos) == Min(e.prefcol, Width(e.text, l))
      else pos == e.cursor
  {
    var l := Line(e.text, e.cursor) + dir;
    if 0 <= l < LineCount(e.text) {
      NearestIsPreferred(e.text, l, e.prefcol);
    }
  }

  lemma HomeAndEnd(e: Editor, answers: seq<Chance>, saved: Ending)
    requires Inv(e) && |answers| == 4
    ensures var l, h, n := Line(e.text, e.cursor), AfterKey(e, 0x84, answers, saved), AfterKey(e, 0x85, answers, saved);
      && h.text == n.text == e.text && h.cursor <= |e.text| && n.cursor <= |e.text|
      && Line(e.text, h.cursor) == l && Col(e.text, h.cursor) == 0
      && Line(e.text, n.cursor) == l && Col(e.text, n.cursor) == Width(e.text, l)
  {
    RunOne(e, Home);
    RunOne(e, End);
    HomeAndEndLand(e);
    hide Inv;
  }

  /** Delete takes the byte under the cursor, Backspace the one before it. */
  lemma DeleteKey(e: Editor, answers: seq<Chance>, saved: Ending)
    requires Inv(e) && |answers| == 4
    ensures var r := AfterKey(e, 0x86, answers, saved);
      if e.cursor == |e.text| then r == e
      else r.text == e.text[..e.cursor] + e.text[e.cursor + 1..] && r.cursor == e.cursor
  {
    InvCursor(e);
    hide Inv, DeleteAt;
    RunOne(e, Erase(e.cursor, answers[0].now, answers[0].snapOk));
    DeletedText(e, e.cursor, answers[0].now, answers[0].snapOk);
  }

  lemma BackspaceKey(e: Editor, answers: seq<Chance>, saved: Ending)
    requires Inv(e) && |answers| == 4
    ensures var r := AfterKey(e, 8, answers, saved);
      if e.cursor == 0 then r == e
      else r.text == e.text[..e.cursor - 1] + e.text[e.cursor..] && r.cursor == e.cursor - 1
  {
    InvCursor(e);
    hide Inv, DeleteAt;
    RunNone(e);
    if e.cursor > 0 {
      RunOne(e, Erase(e.cursor - 1, answers[0].now, answers[0].snapOk));
      DeletedText(e, e.cursor - 1, answers[0].now, answers[0].snapOk);
    }
  }

  lemma DeletedText(e: Editor, pos: int, now: u32, snapOk: bool)
    requires Inv(e)
    ensures var r := DeleteAt(e, pos, now, snapOk);
      if 0 <= pos < |e.text| then r.text == e.text[..pos] + e.text[pos + 1..] && r.cursor == pos else r == e
  {
    DeletionShows(e, pos, now, snapOk);
    hide Inv, DeleteAt;
  }

  /** Printable keys and Return insert themselves, Tab four spaces. */
  lemma TypingKeys(e: Editor, ch: byte, answers: seq<Chance>, saved: Ending)
    requires Inv(e) && |answers| == 4 && forall k :: 0 <= k < 4 ==> answers[k].growOk
    requires |e.text| <= 32764 && (ch == 9 || ch == 10 || 32 <= ch <= 126)
    ensures var r, s := AfterKey(e, ch, answers, saved), if ch == 9 then [32, 32, 32, 32] else [ch];
      r.text == e.text[..e.cursor] + s + e.text[e.cursor..] && r.cursor == e.cursor + |s|
  {
    InvCursor(e);
    var acts := KeyActions(e, ch, answers, saved);
    hide Inv, Run;
    TypingInserts(e, acts);
    assert Typed(acts) == if ch == 9 then [32, 32, 32, 32] else [ch];
  }

  /** Ctrl+S, Ctrl+Z and Ctrl+Y; every other key does nothing. */
  lemma ControlKeys(e: Editor, ch: byte, answers: seq<Chance>, saved: Ending)
    requires Inv(e) && |answers| == 4
    ensures ch == 0x13 ==> AfterKey(e, ch, answers, saved) == e.(modified := e.modified && !saved.Done?)
    ensures ch == 0x1A ==> AfterKey(e, ch, answers, saved) == Undo(e, answers[0].snapOk)
    ensures ch == 0x19 ==> AfterKey(e, ch, answers, saved) == Redo(e, answers[0].snapOk)
    ensures (ch < 32 && ch !in [8, 9, 10, 0x13, 0x19, 0x1A]) || ch == 127 || ch > 0x86 ==>
      AfterKey(e, ch, answers, saved) == e
  {
    hide Inv, Undo, Redo;
    RunNone(e);
    RunOne(e, Save(saved));
    RunOne(e, UndoKey(answers[0].snapOk));
    RunOne(e, RedoKey(answers[0].snapOk));
  }

  // --- lines ----------------------------------------------------------------

  /** Lines are counted by line feeds, byte 10. */
  lemma {:induction false} LineIsCount(text: seq<byte>, pos: nat)
    requires pos <= |text|
    ensures Line(text, pos) == multiset(text[..pos])[10]
    decreases pos
  {
    if pos > 0 {
      LineIsCount(text, pos - 1);
      assert text[..pos] == text[..pos - 1] + [text[pos - 1]];
    }
  }

  /** A column is the distance to the last line feed before it, or to the start. */
  lemma {:induction false} ColIsDistance(text: seq<byte>, pos: nat)
    requires pos <= |text|
    ensures var s := pos - Col(text, pos);
      (s == 0 || text[s - 1] == 10) && forall k :: s <= k < pos ==> text[k] != 10
    decreases pos
  {
    if pos > 0 && text[pos - 1] != 10 {
      ColIsDistance(text, pos - 1);
    }
  }

  /** The width of a line is the distance to its line feed, or to the end. */
  lemma WidthIsDistance(text: seq<byte>, line: nat)
    requires line < LineCount(text)
    ensures var s := LineStart(text, line); var n := s + Width(text, line);
      && n <= |text| && (n == |text| || text[n] == 10) && forall k :: s <= k < n ==> text[k] != 10
  {
    LenIsDistance(text, LineStart(text, line));
  }

  lemma {:induction false} LenIsDistance(text: seq<byte>, start: nat)
    requires start <= |text|
    ensures var n := start + LineLen(text, start);
      && n <= |text| && (n == |text| || text[n] == 10) && forall k :: start <= k < n ==> text[k] != 10
    decreases |text| - start
  {
    if start < |text| && text[start] != 10 {
      LenIsDistance(text, start + 1);
    }
  }
}
