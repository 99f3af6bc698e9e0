/** The text editor's behaviour on values: edits, cursor movement, and undo and
    redo as a walk along one timeline of snapshots. */
module EditorModel {
  import opened Bytes
  import opened TextGeometry
  import opened SaveEnding

  const MAX_UNDO := 24
  const MAX_LEN := 0x8000

  /** Edit kinds; 0 is a barrier between bursts. */
  const INSERT := 1
  const DELETE := 2

  datatype Snap = Snap(text: seq<byte>, cursor: nat)

  datatype Editor = Editor(
    text: seq<byte>, cap: nat, cursor: nat, prefcol: nat, modified: bool,
    undo: seq<Snap>, redo: seq<Snap>, lastTick: u32, lastKind: nat)
  {
    function Now(): Snap {
      Snap(text, cursor)
    }
  }

  ghost predicate Sound(s: Snap) {
    s.cursor <= |s.text|
  }

  /** What every key, click, undo and redo keeps. */
  ghost predicate Inv(e: Editor) {
    && e.cursor <= |e.text| <= e.cap && e.cap > 0
    && AtPreferred(e.text, e.cursor, e.prefcol)
    && |e.undo| + |e.redo| <= MAX_UNDO
    && (forall k :: 0 <= k < |e.undo| ==> Sound(e.undo[k]))
    && (forall k :: 0 <= k < |e.redo| ==> Sound(e.redo[k]))
  }

  // --- single operations ----------------------------------------------------

  /** ed_push_state: a full stack forgets its oldest step, and a failed
      allocation leaves the stack alone. */
  ghost function Pushed(stack: seq<Snap>, s: Snap, ok: bool): (r: seq<Snap>)
    ensures |stack| <= MAX_UNDO ==> |r| <= MAX_UNDO
  {
    if !ok then stack
    else (if |stack| == MAX_UNDO then stack[1..] else stack) + [s]
  }

  /** The edit joins the current burst: same kind, within 150 ticks. */
  predicate Coalesces(e: Editor, kind: nat, now: u32) {
    kind == e.lastKind && |e.undo| > 0 && (now - e.lastTick) % 0x1_0000_0000 < 150
  }

  ghost function BeforeEdit(e: Editor, kind: nat, now: u32, ok: bool): Editor {
    e.(undo := if Coalesces(e, kind, now) then e.undo else Pushed(e.undo, e.Now(), ok),
       redo := [], modified := true, lastTick := now, lastKind := kind)
  }

  /** Moving the cursor and taking its column as the preferred one. */
  ghost function MovedTo(e: Editor, pos: nat): Editor
    requires pos <= |e.text|
  {
    e.(cursor := pos, prefcol := Col(e.text, pos))
  }

  ghost function Insert(e: Editor, c: byte, now: u32, snapOk: bool, growOk: bool): Editor
    requires e.cursor <= |e.text|
  {
    if |e.text| >= MAX_LEN then e
    else
      var b := BeforeEdit(e, INSERT, now, snapOk);
      if |e.text| + 1 > e.cap && !growOk then b
      else
        var cap := if |e.text| + 1 <= e.cap then e.cap else if e.cap < 256 then 256 else e.cap * 2;
        MovedTo(b.(text := e.text[..e.cursor] + [c] + e.text[e.cursor..], cap := cap), e.cursor + 1)
  }

  ghost function DeleteAt(e: Editor, pos: int, now: u32, snapOk: bool): Editor {
    if pos < 0 || pos >= |e.text| then e
    else MovedTo(BeforeEdit(e, DELETE, now, snapOk).(text := e.text[..pos] + e.text[pos + 1..]), pos)
  }

  /** ed_restore: the snapshot becomes the live buffer. */
  ghost function Restored(e: Editor, s: Snap): Editor
    requires Sound(s)
  {
    MovedTo(e.(text := s.text, cap := if |s.text| > 0 then |s.text| else 1, modified := true, lastKind := 0), s.cursor)
  }

  ghost function Undo(e: Editor, ok: bool): Editor
    requires Inv(e)
  {
    if |e.undo| == 0 then e
    else
      var top := |e.undo| - 1;
      Restored(e.(redo := Pushed(e.redo, e.Now(), ok), undo := e.undo[..top]), e.undo[top])
  }

  ghost function Redo(e: Editor, ok: bool): Editor
    requires Inv(e)
  {
    if |e.redo| == 0 then e
    else
      var top := |e.redo| - 1;
      Restored(e.(undo := Pushed(e.undo, e.Now(), ok), redo := e.redo[..top]), e.redo[top])
  }

  ghost function Clicked(e: Editor, line: nat, col: int): Editor {
    var l := Min(line, LineCount(e.text) - 1);
    var c := Min(Max(col, 0), Width(e.text, l));
    e.(cursor := LineStart(e.text, l) + c, prefcol := c)
  }

  // --- runs -----------------------------------------------------------------

  /** One thing that can happen to an editor; the flags say how its memory
      allocations end, `how` how its save ends, `now` is the timer reading. */
  datatype Action =
    | Type(c: byte, now: u32, snapOk: bool, growOk: bool)
    | Erase(pos: int, now: u32, snapOk: bool)
    | UndoKey(ok: bool)
    | RedoKey(ok: bool)
    | Left
    | Right
    | Home
    | End
    | UpDown(dir: int)
    | Click(line: nat, col: int)
    | Save(how: Ending)

  ghost function Step(e: Editor, a: Action): Editor
    requires Inv(e)
  {
    match a
    case Type(c, now, snapOk, growOk) => Insert(e, c, now, snapOk, growOk)
    case Erase(pos, now, snapOk) => DeleteAt(e, pos, now, snapOk)
    case UndoKey(ok) => Undo(e, ok)
    case RedoKey(ok) => Redo(e, ok)
    case Left => MovedTo(e, if e.cursor > 0 then e.cursor - 1 else 0)
    case Right => MovedTo(e, if e.cursor < |e.text| then e.cursor + 1 else e.cursor)
    case Home => MovedTo(e, LineStart(e.text, Line(e.text, e.cursor)))
    case End => MovedTo(e, LineStart(e.text, Line(e.text, e.cursor)) + Width(e.text, Line(e.text, e.cursor)))
    case UpDown(dir) => e.(cursor := Vertical(e.text, e.cursor, e.prefcol, dir))
    case Click(line, col) => Clicked(e, line, col)
    case Save(how) => if how.Done? then e.(modified := false) else e
  }

  lemma MovedToKeepsInv(e: Editor, pos: nat)
    requires pos <= |e.text| <= e.cap && e.cap > 0
    requires |e.undo| + |e.redo| <= MAX_UNDO
    requires forall k :: 0 <= k < |e.undo| ==> Sound(e.undo[k])
    requires forall k :: 0 <= k < |e.redo| ==> Sound(e.redo[k])
    ensures Inv(MovedTo(e, pos))
  {
    SyncIsPreferred(e.text, pos);
  }

  lemma InsertKeepsInv(e: Editor, c: byte, now: u32, snapOk: bool, growOk: bool)
    requires Inv(e)
    ensures Inv(Insert(e, c, now, snapOk, growOk))
  {
    hide AtPreferred;
    var text := e.text[..e.cursor] + [c] + e.text[e.cursor..];
    SyncIsPreferred(text, e.cursor + 1);
  }

  lemma DeleteKeepsInv(e: Editor, pos: int, now: u32, snapOk: bool)
    requires Inv(e)
    ensures Inv(DeleteAt(e, pos, now, snapOk))
  {
    hide AtPreferred;
    if 0 <= pos < |e.text| {
      SyncIsPreferred(e.text[..pos] + e.text[pos + 1..], pos);
    }
  }

  ghost predicate SoundStack(stack: seq<Snap>) {
    forall k :: 0 <= k < |stack| ==> Sound(stack[k])
  }

  lemma RestoredKeepsInv(e: Editor, s: Snap)
    requires Sound(s) && SoundStack(e.undo) && SoundStack(e.redo) && |e.undo| + |e.redo| <= MAX_UNDO
    ensures Inv(Restored(e, s))
  {
    SyncIsPreferred(s.text, s.cursor);
    hide AtPreferred;
  }

  lemma PushedIsSound(stack: seq<Snap>, s: Snap, ok: bool)
    requires SoundStack(stack) && Sound(s) && |stack| < MAX_UNDO
    ensures SoundStack(Pushed(stack, s, ok)) && |Pushed(stack, s, ok)| <= |stack| + 1
  {
  }

  lemma UndoKeepsInv(e: Editor, ok: bool)
    requires Inv(e)
    ensures Inv(Undo(e, ok)) && Inv(Redo(e, ok))
  {
    hide AtPreferred, Pushed, Restored;
    if |e.undo| > 0 {
      var top := |e.undo| - 1;
      PushedIsSound(e.redo, e.Now(), ok);
      RestoredKeepsInv(e.(redo := Pushed(e.redo, e.Now(), ok), undo := e.undo[..top]), e.undo[top]);
    }
    if |e.redo| > 0 {
      var top := |e.redo| - 1;
      PushedIsSound(e.undo, e.Now(), ok);
      RestoredKeepsInv(e.(undo := Pushed(e.undo, e.Now(), ok), redo := e.redo[..top]), e.redo[top]);
    }
  }

  /** Every action keeps the invariant. */
  lemma StepKeepsInv(e: Editor, a: Action)
    requires Inv(e)
    ensures Inv(Step(e, a))
  {
    hide AtPreferred;
    match a
    case Type(c, now, snapOk, growOk) => InsertKeepsInv(e, c, now, snapOk, growOk);
    case Erase(pos, now, snapOk) => DeleteKeepsInv(e, pos, now, snapOk);
    case UndoKey(ok) => UndoKeepsInv(e, ok);
    case RedoKey(ok) => UndoKeepsInv(e, ok);
    case UpDown(dir) =>
      var line := Line(e.text, e.cursor) + dir;
      if 0 <= line < LineCount(e.text) {
        NearestIsPreferred(e.text, line, e.prefcol);
      }
    case Click(line, col) =>
      var l := Min(line, LineCount(e.text) - 1);
      ClickIsPreferred(e.text, l, Min(Max(col, 0), Width(e.text, l)));
    case Save(_) =>
    case _ => MovedToKeepsInv(e, Step(e, a).cursor);
  }

  lemma ClickIsPreferred(text: seq<byte>, line: nat, col: nat)
    requires line < LineCount(text) && col <= Width(text, line)
    ensures AtPreferred(text, LineStart(text, line) + col, col)
  {
    PlaceToOffset(text, line, col);
  }

  ghost function Run(e: Editor, acts: seq<Action>): (r: Editor)
    requires Inv(e)
    ensures Inv(r)
    decreases |acts|
  {
    if |acts| == 0 then e
    else
      var before := Run(e, acts[..|acts| - 1]);
      StepKeepsInv(before, acts[|acts| - 1]);
      Step(before, acts[|acts| - 1])
  }

  // --- undo and redo walk a timeline ----------------------------------------

  ghost function Reversed(s: seq<Snap>): (r: seq<Snap>)
    ensures |r| == |s|
    ensures forall k :: 0 <= k < |s| ==> r[k] == s[|s| - 1 - k]
  {
    seq(|s|, k requires 0 <= k < |s| => s[|s| - 1 - k])
  }

  /** Everything undo and redo can reach, oldest first; the present stands at
      index |undo|. */
  ghost function Timeline(e: Editor): (t: seq<Snap>)
    ensures |t| == |e.undo| + 1 + |e.redo| && t[|e.undo|] == e.Now()
  {
    e.undo + [e.Now()] + Reversed(e.redo)
  }

  /** Undo and redo move along the timeline without changing it. */
  lemma UndoMovesBack(e: Editor)
    requires Inv(e) && |e.undo| > 0
    ensures Inv(Undo(e, true)) && Timeline(Undo(e, true)) == Timeline(e)
    ensures |Undo(e, true).undo| == |e.undo| - 1
  {
    hide AtPreferred;
    UndoKeepsInv(e, true);
    var u, t := Undo(e, true), Timeline(e);
    assert u.redo == e.redo + [e.Now()] && u.Now() == e.undo[|e.undo| - 1];
    assert Timeline(u) == t;
  }

  lemma RedoMovesForward(e: Editor)
    requires Inv(e) && |e.redo| > 0
    ensures Inv(Redo(e, true)) && Timeline(Redo(e, true)) == Timeline(e)
    ensures |Redo(e, true).undo| == |e.undo| + 1
  {
    hide AtPreferred;
    UndoKeepsInv(e, true);
    var u, t := Redo(e, true), Timeline(e);
    assert u.undo == e.undo + [e.Now()] && u.Now() == e.redo[|e.redo| - 1];
    assert Timeline(u) == t;
  }

  /** A sequence of undo (-1) and redo (+1) keys whose snapshots all find memory. */
  ghost function Keys(e: Editor, dirs: seq<int>): (r: Editor)
    requires Inv(e)
    ensures Inv(r)
    decreases |dirs|
  {
    if |dirs| == 0 then e
    else
      var before := Keys(e, dirs[..|dirs| - 1]);
      UndoKeepsInv(before, true);
      if dirs[|dirs| - 1] < 0 then Undo(before, true) else Redo(before, true)
  }

  ghost predicate UnitSteps(dirs: seq<int>) {
    forall k :: 0 <= k < |dirs| ==> dirs[k] == -1 || dirs[k] == 1
  }

  /** After any sequence of undo and redo keys the editor shows the snapshot at
      the place of the timeline that the keys walked to. */
  lemma {:induction false} KeysWalkTimeline(e: Editor, dirs: seq<int>)
    requires Inv(e) && UnitSteps(dirs)
    ensures Timeline(Keys(e, dirs)) == Timeline(e)
    ensures |Keys(e, dirs).undo| == WalkLine(|Timeline(e)|, |e.undo|, dirs)
    ensures Keys(e, dirs).Now() == Timeline(e)[WalkLine(|Timeline(e)|, |e.undo|, dirs)]
    decreases |dirs|
  {
    hide AtPreferred, Inv;
    if |dirs| > 0 {
      var before := Keys(e, dirs[..|dirs| - 1]);
      KeysWalkTimeline(e, dirs[..|dirs| - 1]);
      if dirs[|dirs| - 1] < 0 {
        if |before.undo| > 0 {
          UndoMovesBack(before);
        }
      } else if |before.redo| > 0 {
        RedoMovesForward(before);
      }
    }
  }

  /** Two editors at the same place of the same timeline agree on text, cursor
      and both stacks. */
  lemma SamePlace(e: Editor, f: Editor)
    requires Timeline(e) == Timeline(f) && |e.undo| == |f.undo|
    ensures e.Now() == f.Now() && e.undo == f.undo && e.redo == f.redo
  {
    var t, n := Timeline(e), |e.undo|;
    assert e.undo == t[..n] && f.undo == t[..n];
    assert |e.redo| == |f.redo|;
    assert Reversed(e.redo) == t[n + 1..] && Reversed(f.redo) == t[n + 1..];
    assert forall k :: 0 <= k < |e.redo| ==> e.redo[k] == Reversed(e.redo)[|e.redo| - 1 - k];
    assert forall k :: 0 <= k < |f.redo| ==> f.redo[k] == Reversed(f.redo)[|f.redo| - 1 - k];
  }

  /** Keys of zero net displacement that never find a stack empty restore text,
      cursor and both stacks; k undos then k redos are an instance. */
  lemma KeysReturn(e: Editor, dirs: seq<int>)
    requires Inv(e) && UnitSteps(dirs) && Sum(dirs) == 0
    requires NeverAtEdge(|Timeline(e)|, |e.undo|, dirs)
    ensures Keys(e, dirs).Now() == e.Now() && Keys(e, dirs).undo == e.undo && Keys(e, dirs).redo == e.redo
  {
    hide Inv;
    KeysWalkTimeline(e, dirs);
    WalkIsSum(|Timeline(e)|, |e.undo|, dirs);
    SamePlace(Keys(e, dirs), e);
  }

  /** `k` undo keys, then `m` of the redo keys that answer them. */
  ghost function UndosThenRedos(k: nat, m: nat): seq<int> {
    seq(k + m, i => if i < k then -1 else 1)
  }

  lemma {:induction false} PartialSum(k: nat, m: nat, n: nat)
    requires n <= k + m
    ensures n <= k ==> Sum(UndosThenRedos(k, m)[..n]) == 0 - n
    ensures n >= k ==> Sum(UndosThenRedos(k, m)[..n]) == n - 2 * k
    decreases n
  {
    if n > 0 {
      PartialSum(k, m, n - 1);
      assert UndosThenRedos(k, m)[..n][..n - 1] == UndosThenRedos(k, m)[..n - 1];
    }
  }

  lemma UndosThenRedosReturn(e: Editor, k: nat)
    requires Inv(e) && k <= |e.undo|
    ensures var r := Keys(e, UndosThenRedos(k, k));
      r.text == e.text && r.cursor == e.cursor && r.undo == e.undo && r.redo == e.redo
  {
    hide Inv;
    var dirs := UndosThenRedos(k, k);
    forall n | 0 <= n <= |dirs| ensures 0 <= |e.undo| + Sum(dirs[..n]) < |Timeline(e)| {
      PartialSum(k, k, n);
    }
    PartialSum(k, k, 2 * k);
    assert dirs[..2 * k] == dirs;
    KeysReturn(e, dirs);
  }

  // --- bursts ---------------------------------------------------------------

  /** The action leaves the current burst of `kind` open: it is refused, joins
      the burst, or does not edit at all. */
  ghost predicate Continues(e: Editor, kind: nat, a: Action) {
    match a
    case Type(_, now, _, _) => |e.text| >= MAX_LEN || (kind == INSERT && Coalesces(e, kind, now))
    case Erase(pos, now, _) => !(0 <= pos < |e.text|) || (kind == DELETE && Coalesces(e, kind, now))
    case UndoKey(_) => false
    case RedoKey(_) => false
    case _ => true
  }

  /** Every action of the run continues the burst from the state it meets. */
  ghost predicate Burst(e: Editor, kind: nat, acts: seq<Action>)
    requires Inv(e)
  {
    forall k :: 0 <= k < |acts| ==> Continues(Run(e, acts[..k]), kind, acts[k])
  }

  lemma ContinuingKeepsUndo(e: Editor, kind: nat, a: Action)
    requires Inv(e) && Continues(e, kind, a)
    ensures Step(e, a).undo == e.undo && (e.redo == [] ==> Step(e, a).redo == [])
  {
    hide AtPreferred;
  }

  lemma {:induction false} BurstKeepsUndo(e: Editor, kind: nat, acts: seq<Action>)
    requires Inv(e) && Burst(e, kind, acts)
    ensures Run(e, acts).undo == e.undo && (e.redo == [] ==> Run(e, acts).redo == [])
    decreases |acts|
  {
    hide Inv, Continues, Step;
    if |acts| > 0 {
      var before := acts[..|acts| - 1];
      assert forall k :: 0 <= k < |before| ==> before[..k] == acts[..k];
      BurstKeepsUndo(e, kind, before);
      ContinuingKeepsUndo(Run(e, before), kind, acts[|acts| - 1]);
    }
  }

  /** The edit is carried out, and opens a burst with a snapshot. */
  ghost predicate Opens(e: Editor, kind: nat, a: Action) {
    match a
    case Type(_, now, snapOk, _) => kind == INSERT && |e.text| < MAX_LEN && !Coalesces(e, kind, now) && snapOk
    case Erase(pos, now, snapOk) => kind == DELETE && 0 <= pos < |e.text| && !Coalesces(e, kind, now) && snapOk
    case _ => false
  }

  /** One undo takes back a whole burst: text and cursor are those before its
      first edit, the history is what it was (less the oldest step of a full
      stack), and the only thing left to redo is the burst. */
  lemma UndoTakesBackBurst(e: Editor, kind: nat, first: Action, rest: seq<Action>, ok: bool)
    requires Inv(e) && Opens(e, kind, first)
    requires Inv(Step(e, first)) && Burst(Step(e, first), kind, rest)
    ensures var u := Undo(Run(Step(e, first), rest), ok);
      && u.text == e.text && u.cursor == e.cursor
      && u.undo == (if |e.undo| == MAX_UNDO then e.undo[1..] else e.undo)
      && u.redo == (if ok then [Run(Step(e, first), rest).Now()] else [])
  {
    hide Inv, Burst, Step, Opens, Undo;
    OpensPushes(e, kind, first);
    BurstKeepsUndo(Step(e, first), kind, rest);
    UndoTakes(Run(Step(e, first), rest), if |e.undo| == MAX_UNDO then e.undo[1..] else e.undo, e.Now(), ok);
  }

  lemma OpensPushes(e: Editor, kind: nat, a: Action)
    requires Inv(e) && Opens(e, kind, a)
    ensures Step(e, a).undo == (if |e.undo| == MAX_UNDO then e.undo[1..] else e.undo) + [e.Now()]
    ensures Step(e, a).redo == []
  {
    InvCursor(e);
    hide Inv, Coalesces;
  }

  lemma UndoTakes(e: Editor, kept: seq<Snap>, s: Snap, ok: bool)
    requires Inv(e) && e.undo == kept + [s] && e.redo == []
    ensures var u := Undo(e, ok);
      && u.text == s.text && u.cursor == s.cursor && u.undo == kept
      && u.redo == (if ok then [e.Now()] else [])
  {
    hide Sound, AtPreferred;
    assert (kept + [s])[..|kept|] == kept;
  }

  /** Without memory for the snapshot an edit cannot be taken back: undo goes to
      the state before an older one. */
  lemma LostSnapshot(e: Editor, c: byte, now: u32, growOk: bool, ok: bool)
    requires Inv(e) && |e.undo| > 0 && |e.text| < MAX_LEN && Inv(Insert(e, c, now, false, growOk))
    ensures Undo(Insert(e, c, now, false, growOk), ok).Now() == e.undo[|e.undo| - 1]
    ensures Undo(Insert(e, c, now, false, growOk), ok).undo == e.undo[..|e.undo| - 1]
  {
    hide AtPreferred;
    var s := Insert(e, c, now, false, growOk);
    assert s.undo == e.undo;
  }

  // --- edits and the saved file ---------------------------------------------

  /** Backspace takes back a typed byte. */
  lemma BackspaceUndoesTyping(e: Editor, c: byte, now: u32, later: u32, a: bool, b: bool)
    requires Inv(e) && |e.text| < MAX_LEN
    ensures var t := Insert(e, c, now, a, true);
      t.text == e.text[..e.cursor] + [c] + e.text[e.cursor..]
      && DeleteAt(t, t.cursor - 1, later, b).text == e.text && DeleteAt(t, t.cursor - 1, later, b).cursor == e.cursor
  {
    hide AtPreferred;
    var t := Insert(e, c, now, a, true);
    assert t.text[..e.cursor] + t.text[e.cursor + 1..] == e.text;
  }

  /** The bytes a run of insertions types. */
  ghost function Typed(acts: seq<Action>): (t: seq<byte>)
    requires forall k :: 0 <= k < |acts| ==> acts[k].Type?
    ensures |t| == |acts|
  {
    seq(|acts|, k requires 0 <= k < |acts| => acts[k].c)
  }

  /** Typing a string inserts it whole at the cursor, whatever became of the
      snapshots and however often the buffer grew. */
  lemma {:induction false} TypingInserts(e: Editor, acts: seq<Action>)
    requires Inv(e) && |e.text| + |acts| <= MAX_LEN
    requires forall k :: 0 <= k < |acts| ==> acts[k].Type? && acts[k].growOk
    ensures Run(e, acts).text == e.text[..e.cursor] + Typed(acts) + e.text[e.cursor..]
    ensures Run(e, acts).cursor == e.cursor + |acts|
    decreases |acts|
  {
    InvCursor(e);
    hide Inv, Insert;
    if |acts| == 0 {
      assert e.text == e.text[..e.cursor] + e.text[e.cursor..];
    } else {
      var before, a := acts[..|acts| - 1], acts[|acts| - 1];
      TypingInserts(e, before);
      InvCursor(Run(e, before));
      TypeStep(Run(e, before), a);
      TypedNext(acts);
      hide Typed, Run;
      InsertedAfter(e.text[..e.cursor], Typed(before), e.text[e.cursor..], a.c);
    }
  }

  lemma TypedNext(acts: seq<Action>)
    requires |acts| > 0 && forall k :: 0 <= k < |acts| ==> acts[k].Type?
    ensures Typed(acts) == Typed(acts[..|acts| - 1]) + [acts[|acts| - 1].c]
  {
  }

  lemma InsertedAfter(p: seq<byte>, t: seq<byte>, q: seq<byte>, c: byte)
    ensures var all, at := p + t + q, |p| + |t|; all[..at] + [c] + all[at..] == p + (t + [c]) + q
  {
  }

  lemma TypeStep(e: Editor, a: Action)
    requires e.cursor <= |e.text| < MAX_LEN && a.Type? && a.growOk
    ensures var r := Insert(e, a.c, a.now, a.snapOk, a.growOk);
      r.text == e.text[..e.cursor] + [a.c] + e.text[e.cursor..] && r.cursor == e.cursor + 1
  {
  }

  lemma InvCursor(e: Editor)
    requires Inv(e)
    ensures e.cursor <= |e.text|
  {
  }

  /** A click lands on the clicked place, or on the nearest one of the text. */
  lemma ClickLands(e: Editor, line: nat, col: int)
    requires Inv(e)
    ensures var l := Min(line, LineCount(e.text) - 1); var r := Clicked(e, line, col);
      && r.cursor <= |e.text| && Line(e.text, r.cursor) == l
      && Col(e.text, r.cursor) == Min(Max(col, 0), Width(e.text, l))
  {
    hide Inv;
    var l := Min(line, LineCount(e.text) - 1);
    PlaceToOffset(e.text, l, Min(Max(col, 0), Width(e.text, l)));
  }

  /** Home and End stay on the line and go to its first and last column. */
  lemma HomeAndEndLand(e: Editor)
    requires Inv(e)
    ensures var l, h, n := Line(e.text, e.cursor), Step(e, Home).cursor, Step(e, End).cursor;
      && h <= |e.text| && Line(e.text, h) == l && Col(e.text, h) == 0
      && n <= |e.text| && Line(e.text, n) == l && Col(e.text, n) == Width(e.text, l)
  {
    OffsetToPlace(e.text, e.cursor);
    hide Inv;
    var l := Line(e.text, e.cursor);
    PlaceToOffset(e.text, l, 0);
    PlaceToOffset(e.text, l, Width(e.text, l));
  }

  /** Every save of the run ends in a way fs_write can end for the text it is given. */
  ghost predicate Saves(e: Editor, acts: seq<Action>)
    requires Inv(e)
  {
    forall k :: 0 <= k < |acts| && acts[k].Save? ==> Possible(Run(e, acts[..k]).text, acts[k].how)
  }

  lemma SavesBefore(e: Editor, acts: seq<Action>)
    requires Inv(e) && Saves(e, acts) && |acts| > 0
    ensures Saves(e, acts[..|acts| - 1])
    ensures acts[|acts| - 1].Save? ==> Possible(Run(e, acts[..|acts| - 1]).text, acts[|acts| - 1].how)
  {
    var before := acts[..|acts| - 1];
    assert forall k :: 0 <= k < |before| ==> before[..k] == acts[..k];
  }

  /** What the file reads as after a run, given what it read as before. */
  ghost function OnDisk(file: seq<byte>, e: Editor, acts: seq<Action>): seq<byte>
    requires Inv(e) && Saves(e, acts)
    decreases |acts|
  {
    if |acts| == 0 then file
    else
      var last := |acts| - 1;
      SavesBefore(e, acts);
      var was := OnDisk(file, e, acts[..last]);
      if acts[last].Save? then Contents(was, Run(e, acts[..last]).text, acts[last].how) else was
  }

  /** The last save that was not refused, if any, left the text in the file. */
  ghost predicate Kept(e: Editor, acts: seq<Action>)
    requires Inv(e)
    decreases |acts|
  {
    if |acts| == 0 then true
    else
      var last := |acts| - 1;
      if acts[last].Save? && !acts[last].how.Refused? then Keeps(Run(e, acts[..last]).text, acts[last].how)
      else Kept(e, acts[..last])
  }

  /** What one step does to the mark. */
  lemma StepMarks(e: Editor, a: Action)
    requires Inv(e)
    ensures Step(e, a).modified || Step(e, a).text == e.text
    ensures !Step(e, a).modified && e.modified ==> a == Save(Done)
  {
    hide AtPreferred;
  }

  /** The modified mark against the file: unmarked text is what the file reads as
      if and only if the last save that was not refused kept it. A failed save
      does not set the mark, although it may have emptied or cut the file. */
  lemma {:induction false} UnmodifiedIsSavedIff(file: seq<byte>, e: Editor, acts: seq<Action>)
    requires Inv(e) && Saves(e, acts) && (!e.modified ==> e.text == file)
    ensures !Run(e, acts).modified ==> (Run(e, acts).text == OnDisk(file, e, acts) <==> Kept(e, acts))
    decreases |acts|
  {
    hide Inv, Step;
    if |acts| > 0 {
      var before, a := acts[..|acts| - 1], acts[|acts| - 1];
      SavesBefore(e, acts);
      UnmodifiedIsSavedIff(file, e, before);
      var r := Run(e, before);
      StepMarks(r, a);
      if a.Save? {
        SaveKeepsText(r, a.how);
        if !a.how.Refused? {
          KeepsIff(OnDisk(file, e, before), r.text, a.how);
        }
      }
    }
  }

  lemma SaveKeepsText(e: Editor, how: Ending)
    requires Inv(e)
    ensures Step(e, Save(how)).text == e.text && Step(e, Save(how)).modified == (e.modified && !how.Done?)
  {
  }

  /** A run without failed saves: there the mark never lies. */
  lemma {:induction false} NoFailedSave(e: Editor, acts: seq<Action>)
    requires Inv(e) && forall k :: 0 <= k < |acts| && acts[k].Save? ==> acts[k].how.Done? || acts[k].how.Refused?
    ensures Kept(e, acts)
    decreases |acts|
  {
    if |acts| > 0 {
      NoFailedSave(e, acts[..|acts| - 1]);
    }
  }

  /** The failing run: an unmarked text of more than one block, saved while the
      drive fails at the first block, stays unmarked over a file cut short. */
  lemma FailedSaveLies(e: Editor, tail: seq<byte>)
    requires Inv(e) && !e.modified && |e.text| > 512 && |tail| == 512
    ensures var acts := [Save(BlockFailed(0, tail))];
      && Saves(e, acts) && !Run(e, acts).modified
      && Run(e, acts).text == e.text && OnDisk(e.text, e, acts) != e.text
  {
    hide Inv, Step;
    var acts := [Save(BlockFailed(0, tail))];
    RunOne(e, acts[0]);
    RunNone(e);
    assert acts[..0] == [];
    SaveKeepsText(e, acts[0].how);
    assert |OnDisk(e.text, e, acts)| == 512;
  }

  // --- keys -----------------------------------------------------------------

  /** What the timer and the allocator answer while a key is handled. */
  datatype Chance = Chance(now: u32, snapOk: bool, growOk: bool)

  /** editor_key: the actions a key stands for. */
  ghost function KeyActions(e: Editor, ch: byte, answers: seq<Chance>, saved: Ending): (acts: seq<Action>)
    requires |answers| == 4
    ensures |acts| <= 4
  {
    var a := answers[0];
    if ch == 0x80 then [Left]
    else if ch == 0x81 then [Right]
    else if ch == 0x82 then [UpDown(-1)]
    else if ch == 0x83 then [UpDown(1)]
    else if ch == 0x84 then [Home]
    else if ch == 0x85 then [End]
    else if ch == 0x86 then [Erase(e.cursor, a.now, a.snapOk)]
    else if ch == 8 then if e.cursor > 0 then [Erase(e.cursor - 1, a.now, a.snapOk)] else []
    else if ch == 10 then [Type(10, a.now, a.snapOk, a.growOk)]
    else if ch == 9 then seq(4, k requires 0 <= k < 4 => Type(32, answers[k].now, answers[k].snapOk, answers[k].growOk))
    else if ch == 0x13 then [Save(saved)]
    else if ch == 0x1A then [UndoKey(a.snapOk)]
    else if ch == 0x19 then [RedoKey(a.snapOk)]
    else if 32 <= ch < 127 then [Type(ch, a.now, a.snapOk, a.growOk)]
    else []
  }

  /** The tab key types four spaces. */
  lemma TabActions(e: Editor, answers: seq<Chance>, acts: seq<Action>)
    requires |answers| == |acts| == 4
    requires forall j :: 0 <= j < 4 ==> acts[j] == Type(32, answers[j].now, answers[j].snapOk, answers[j].growOk)
    ensures acts == KeyActions(e, 9, answers, Done)
  {
  }

  lemma RunNext(e: Editor, acts: seq<Action>, a: Action)
    requires Inv(e)
    ensures Run(e, acts + [a]) == Step(Run(e, acts), a)
  {
    assert (acts + [a])[..|acts|] == acts;
  }

  lemma RunNone(e: Editor)
    requires Inv(e)
    ensures Run(e, []) == e
  {
  }

  lemma RunOne(e: Editor, a: Action)
    requires Inv(e)
    ensures Run(e, [a]) == Step(e, a)
  {
    assert [a][..0] == [];
  }
}
