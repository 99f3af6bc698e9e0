/** What a press, a taskbar button, or a new window does to the desk, in
    coordinates and places of the z-order. */
module WindowLaws {
  import opened WindowOrder

  /** Of the visible windows with the point inside, the one at place `k` of the
      order is the topmost. */
  ghost predicate Hit(d: Desk, k: nat, mx: int, my: int)
    requires Sized(d) && Windows(d.order)
  {
    && k < |d.order| && d.visible[d.order[k]] && Contains(d.rects[d.order[k]], mx, my)
    && forall j :: k < j < |d.order| && d.visible[d.order[j]] ==> !Contains(d.rects[d.order[j]], mx, my)
  }

  predicate Contains(r: Rect, mx: int, my: int) {
    0 <= mx - r.x < r.w && 0 <= my - r.y < r.h
  }

  /** Within 7 pixels of (cx, cy). */
  predicate Near(mx: int, my: int, cx: int, cy: int) {
    (mx - cx) * (mx - cx) + (my - cy) * (my - cy) <= 7 * 7
  }

  lemma HitIsTopmost(d: Desk, k: nat, mx: int, my: int)
    requires Sized(d) && Windows(d.order) && Hit(d, k, mx, my)
    ensures Topmost(d.order, Under(d, mx, my)) == d.order[k]
  {
    var flags := Under(d, mx, my);
    assert flags[d.order[k]];
    forall j | k < j < |d.order| ensures !flags[d.order[j]] {
      assert d.visible[d.order[j]] ==> !Contains(d.rects[d.order[j]], mx, my);
    }
    TopmostIs(d.order, flags, k);
  }

  /** A point near the middle of a light is in the title bar. */
  lemma InTitle(my: int, y: int, a: int)
    requires a * a + (my - (y + 15)) * (my - (y + 15)) <= 7 * 7
    ensures my < y + 30
  {
    Square(a);
    if my - (y + 15) >= 15 {
      Grows(15, my - (y + 15));
    }
  }

  lemma Square(a: int)
    ensures a * a >= 0
  {
  }

  lemma Grows(a: nat, b: nat)
    requires a <= b
    ensures a * a <= b * b
  {
    assert b * b - a * a == (b - a) * (b + a);
  }

  /** No point is near both lights, which are 20 pixels apart. */
  lemma LightsApart(dx: int, dy: int)
    ensures dx * dx + dy * dy > 7 * 7 || (dx - 20) * (dx - 20) + dy * dy > 7 * 7
  {
    Square(dy);
    if dx >= 10 {
      Grows(10, dx);
    } else {
      Grows(10, 20 - dx);
      assert (20 - dx) * (20 - dx) == (dx - 20) * (dx - 20);
    }
  }

  lemma LightAt(r: Rect, mx: int, my: int)
    ensures Near(mx, my, r.x + 20, r.y + 15) ==> PartAt(r, mx, my) == CloseLight
    ensures Near(mx, my, r.x + 40, r.y + 15) ==> PartAt(r, mx, my) == MinimiseLight
    ensures !Near(mx, my, r.x + 20, r.y + 15) && !Near(mx, my, r.x + 40, r.y + 15) ==> PartAt(r, mx, my) == Elsewhere
  {
    var dx, dy := mx - (r.x + 20), my - (r.y + 15);
    assert mx - (r.x + 40) == dx - 20;
    if Near(mx, my, r.x + 20, r.y + 15) {
      InTitle(my, r.y, dx);
    }
    if Near(mx, my, r.x + 40, r.y + 15) {
      InTitle(my, r.y, dx - 20);
      LightsApart(dx, dy);
    }
  }

  /** The order `s` with the entry of place `k` taken out. */
  ghost predicate TakenOut(s: seq<int>, k: nat, r: seq<int>) {
    && k < |s| && |r| == |s| - 1
    && (forall j :: 0 <= j < k ==> r[j] == s[j]) && forall j :: k <= j < |r| ==> r[j] == s[j + 1]
  }

  lemma WithoutPlace(s: seq<int>, k: nat)
    requires k < |s| && Distinct(s)
    ensures TakenOut(s, k, Without(s, s[k])) && s[k] !in Without(s, s[k])
  {
    WithoutAt(s, s[k], k);
    WithoutMembers(s, s[k]);
  }

  /** What closing leaves: the window is unused, hidden and out of the order, and
      the others are as they were. */
  ghost predicate Gone(d: Desk, k: nat, r: Desk)
    requires Sized(d) && Windows(d.order) && k < |d.order|
  {
    var i := d.order[k];
    && TakenOut(d.order, k, r.order) && i !in r.order && r.rects == d.rects
    && |r.used| == 8 && !r.used[i] && (forall j :: 0 <= j < 8 && j != i ==> r.used[j] == d.used[j])
    && |r.visible| == 8 && !r.visible[i] && (forall j :: 0 <= j < 8 && j != i ==> r.visible[j] == d.visible[j])
  }

  ghost predicate Hidden(d: Desk, k: nat, r: Desk)
    requires Sized(d) && Windows(d.order) && k < |d.order|
  {
    var i := d.order[k];
    && r.order == d.order && r.used == d.used && r.rects == d.rects
    && |r.visible| == 8 && !r.visible[i] && (forall j :: 0 <= j < 8 && j != i ==> r.visible[j] == d.visible[j])
  }

  /** The window is visible, last in the order, and has the focus. */
  ghost predicate OnTopNow(d: Desk, k: nat, r: Desk)
    requires Sized(d) && Windows(d.order) && k < |d.order|
  {
    var i, n := d.order[k], |d.order| - 1;
    && |r.order| == n + 1 && TakenOut(d.order, k, r.order[..n]) && r.order[n] == i && r.focused == i
    && r.used == d.used && r.rects == d.rects
    && |r.visible| == 8 && r.visible[i] && (forall j :: 0 <= j < 8 && j != i ==> r.visible[j] == d.visible[j])
  }

  lemma ClosedIsGone(d: Desk, k: nat)
    requires Inv(d) && k < |d.order|
    ensures Gone(d, k, Close(d, d.order[k]))
  {
    OrderFacts(d);
    hide Inv, Topmost, Without, TakenOut, Distinct;
    WithoutPlace(d.order, k);
  }

  lemma MinimisedIsHidden(d: Desk, k: nat)
    requires Inv(d) && k < |d.order|
    ensures Hidden(d, k, Minimise(d, d.order[k]))
  {
    OrderFacts(d);
    hide Inv, Topmost;
  }

  lemma RaisedIsOnTop(d: Desk, k: nat)
    requires Inv(d) && k < |d.order| && d.visible[d.order[k]]
    ensures OnTopNow(d, k, Raise(d, d.order[k]))
  {
    OrderFacts(d);
    hide Inv, Topmost, Without, TakenOut, Distinct, Raise;
    RaisedPlaces(d, k);
  }

  lemma TakenSize(s: seq<int>, k: nat, r: seq<int>)
    requires TakenOut(s, k, r)
    ensures |r| == |s| - 1
  {
  }

  /** A press on a window goes by the part of it the point is on. */
  lemma PressGoes(d: Desk, k: nat, mx: int, my: int)
    requires Sized(d) && Windows(d.order) && Hit(d, k, mx, my)
    requires Inv(d)
    ensures k < |d.order| && d.visible[d.order[k]] && Inv(Step(d, Press(mx, my)))
    ensures Step(d, Press(mx, my)) ==
      match PartAt(d.rects[d.order[k]], mx, my)
      case CloseLight => Close(d, d.order[k])
      case MinimiseLight => Minimise(d, d.order[k])
      case Elsewhere => Raise(d, d.order[k])
  {
    HitPlace(d, k, mx, my);
    hide Inv, Hit, PartAt, Under, Close, Minimise, Raise, Topmost;
    HitIsTopmost(d, k, mx, my);
    StepKeepsInv(d, Press(mx, my));
  }

  /** A press near the first light closes the window it hits. */
  lemma PressCloses(d: Desk, k: nat, mx: int, my: int)
    requires Sized(d) && Windows(d.order) && Hit(d, k, mx, my)
    requires Near(mx, my, d.rects[d.order[k]].x + 20, d.rects[d.order[k]].y + 15)
    requires Inv(d)
    ensures Inv(Step(d, Press(mx, my))) && Gone(d, k, Step(d, Press(mx, my)))
  {
    hide Inv, Hit, Near, PartAt, Close, Minimise, Raise, Step, Gone, Distinct;
    PressGoes(d, k, mx, my);
    LightAt(d.rects[d.order[k]], mx, my);
    ClosedIsGone(d, k);
  }

  /** A press near the second light hides it. */
  lemma PressHides(d: Desk, k: nat, mx: int, my: int)
    requires Sized(d) && Windows(d.order) && Hit(d, k, mx, my)
    requires Near(mx, my, d.rects[d.order[k]].x + 40, d.rects[d.order[k]].y + 15)
    requires Inv(d)
    ensures Inv(Step(d, Press(mx, my))) && Hidden(d, k, Step(d, Press(mx, my)))
  {
    hide Inv, Hit, Near, PartAt, Close, Minimise, Raise, Step, Hidden, Distinct;
    PressGoes(d, k, mx, my);
    LightAt(d.rects[d.order[k]], mx, my);
    MinimisedIsHidden(d, k);
  }

  /** A press anywhere else in it puts it on top. */
  lemma PressRaises(d: Desk, k: nat, mx: int, my: int)
    requires Sized(d) && Windows(d.order) && Hit(d, k, mx, my)
    requires !Near(mx, my, d.rects[d.order[k]].x + 20, d.rects[d.order[k]].y + 15)
    requires !Near(mx, my, d.rects[d.order[k]].x + 40, d.rects[d.order[k]].y + 15)
    requires Inv(d)
    ensures Inv(Step(d, Press(mx, my))) && OnTopNow(d, k, Step(d, Press(mx, my)))
  {
    hide Inv, Hit, Near, PartAt, Close, Minimise, Raise, Step, OnTopNow, Distinct;
    PressGoes(d, k, mx, my);
    LightAt(d.rects[d.order[k]], mx, my);
    RaisedIsOnTop(d, k);
  }

  lemma HitPlace(d: Desk, k: nat, mx: int, my: int)
    requires Sized(d) && Windows(d.order) && Hit(d, k, mx, my)
    ensures k < |d.order| && d.visible[d.order[k]]
  {
  }

  /** A press that hits no window changes nothing. */
  lemma PressMisses(d: Desk, mx: int, my: int)
    requires Inv(d) && forall i :: 0 <= i < 8 && d.visible[i] ==> !Contains(d.rects[i], mx, my)
    ensures Step(d, Press(mx, my)) == d
  {
    hide Topmost;
    assert forall i :: i in d.order ==> !Under(d, mx, my)[i];
  }

  /** The taskbar's button of a window in use: visible, on top, focused. */
  lemma ButtonShows(d: Desk, k: nat)
    requires Inv(d) && k < |d.order|
    ensures Inv(Step(d, Restore(d.order[k]))) && OnTopNow(d, k, Step(d, Restore(d.order[k])))
  {
    StepKeepsInv(d, Restore(d.order[k]));
    UsedAt(d, k);
    OrderFacts(d);
    hide Inv, Topmost, Without, TakenOut, Distinct, Raise;
    RaisedPlaces(d.(visible := d.visible[d.order[k] := true]), k);
  }

  /** What raising does to the order, whatever the flags. */
  lemma RaisedPlaces(d: Desk, k: nat)
    requires Sized(d) && Windows(d.order) && Distinct(d.order) && k < |d.order|
    ensures var r, n := Raise(d, d.order[k]), |d.order| - 1;
      && |r.order| == n + 1 && TakenOut(d.order, k, r.order[..n]) && r.order[n] == d.order[k]
      && r.focused == d.order[k] && r.used == d.used && r.visible == d.visible && r.rects == d.rects
  {
    hide Without, TakenOut, Distinct;
    WithoutPlace(d.order, k);
    var rest := Without(d.order, d.order[k]);
    TakenSize(d.order, k, rest);
    assert (rest + [d.order[k]])[..|rest|] == rest;
  }

  lemma UsedAt(d: Desk, k: nat)
    requires Inv(d) && k < |d.order|
    ensures d.used[d.order[k]] && d.order[k] in d.order
  {
    hide Topmost;
  }

  /** Slot `i` is the lowest one not in use, and the new window is in it, on top
      and focused. */
  ghost predicate OpensIn(d: Desk, rect: Rect, i: int, r: Desk)
    requires Sized(d)
  {
    && 0 <= i < 8 && !d.used[i] && (forall j :: 0 <= j < i ==> d.used[j])
    && r == Desk(d.order + [i], d.used[i := true], d.visible[i := true], d.rects[i := rect], i)
  }

  /** A new window takes the lowest slot not in use and opens on top, with the
      focus; with all eight in use there is none. */
  lemma NewWindowShows(d: Desk, rect: Rect)
    requires Inv(d)
    ensures var r := Step(d, Open(rect));
      if forall i :: 0 <= i < 8 ==> d.used[i] then r == d
      else exists i :: OpensIn(d, rect, i, r)
  {
    hide Topmost, Distinct, Windows;
    var i := FreeSlot(d.used, 0);
    if i != -1 {
      assert OpensIn(d, rect, i, Step(d, Open(rect)));
    }
  }
}
