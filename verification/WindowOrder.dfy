/** The window manager's behaviour on values: the z-order of windows, who is
    focused, and what a run of operations keeps. */
module WindowOrder {

  const MAX_WINDOWS := 8
  const TITLE_H := 30

  datatype Rect = Rect(x: int, y: int, w: int, h: int)

  /** `order` lists windows bottom to top; `focused` is -1 for none. */
  datatype Desk = Desk(order: seq<int>, used: seq<bool>, visible: seq<bool>, rects: seq<Rect>, focused: int)

  ghost predicate Distinct(s: seq<int>) {
    forall i, j :: 0 <= i < j < |s| ==> s[i] != s[j]
  }

  ghost predicate Windows(s: seq<int>) {
    forall k :: 0 <= k < |s| ==> 0 <= s[k] < MAX_WINDOWS
  }

  ghost predicate Sized(d: Desk) {
    |d.used| == MAX_WINDOWS && |d.visible| == MAX_WINDOWS && |d.rects| == MAX_WINDOWS
  }

  /** The topmost window of the order that the flags mark, or -1. */
  ghost function Topmost(order: seq<int>, flags: seq<bool>): (top: int)
    requires Windows(order) && |flags| == MAX_WINDOWS
    ensures top == -1 || (top in order && flags[top])
    ensures top == -1 <==> forall i :: i in order ==> !flags[i]
  {
    if |order| == 0 then -1
    else
      var last := order[|order| - 1];
      assert forall i :: i in order <==> i in order[..|order| - 1] || i == last;
      if flags[last] then last else Topmost(order[..|order| - 1], flags)
  }

  /** The order lists exactly the used windows, each once. */
  ghost predicate Listing(d: Desk) {
    && Sized(d) && Windows(d.order) && Distinct(d.order)
    && (forall i :: 0 <= i < MAX_WINDOWS ==> (i in d.order <==> d.used[i]))
    && (forall i :: 0 <= i < MAX_WINDOWS && d.visible[i] ==> d.used[i])
  }

  /** What every operation keeps: the listing, and the focus on the topmost
      visible window. */
  ghost predicate Inv(d: Desk) {
    Listing(d) && d.focused == Topmost(d.order, d.visible)
  }

  // --- operations -----------------------------------------------------------

  /** The order without window `x`, the others as they were. */
  ghost function Without(s: seq<int>, x: int): (r: seq<int>)
    ensures x !in s ==> r == s
  {
    if |s| == 0 then []
    else if s[0] == x then s[1..]
    else [s[0]] + Without(s[1..], x)
  }

  /** raise_window. */
  ghost function Raise(d: Desk, idx: int): Desk {
    if idx in d.order then d.(order := Without(d.order, idx) + [idx], focused := idx) else d
  }

  ghost function Show(d: Desk, idx: int): Desk
    requires Sized(d) && 0 <= idx < MAX_WINDOWS
  {
    Raise(d.(visible := d.visible[idx := true]), idx)
  }

  ghost function Refocused(d: Desk, idx: int): Desk
    requires Sized(d) && Windows(d.order)
  {
    if d.focused == idx then d.(focused := Topmost(d.order, d.visible)) else d
  }

  /** The yellow light. */
  ghost function Minimise(d: Desk, idx: int): Desk
    requires Sized(d) && Windows(d.order) && 0 <= idx < MAX_WINDOWS
  {
    Refocused(d.(visible := d.visible[idx := false]), idx)
  }

  ghost function Close(d: Desk, idx: int): Desk
    requires Sized(d) && Windows(d.order) && 0 <= idx < MAX_WINDOWS
  {
    WithoutIsWindows(d.order, idx);
    Refocused(d.(used := d.used[idx := false], visible := d.visible[idx := false], order := Without(d.order, idx)), idx)
  }

  /** The first unused slot at or after `from`, or -1. */
  ghost function FreeSlot(used: seq<bool>, from: nat): (i: int)
    requires from <= |used|
    ensures i == -1 || (from <= i < |used| && !used[i] && forall k :: from <= k < i ==> used[k])
    ensures i == -1 ==> forall k :: from <= k < |used| ==> used[k]
    decreases |used| - from
  {
    if from == |used| then -1 else if !used[from] then from else FreeSlot(used, from + 1)
  }

  /** add_window: a new window on top in the lowest unused slot, when there is one. */
  ghost function Add(d: Desk, r: Rect): Desk
    requires Sized(d)
  {
    var i := FreeSlot(d.used, 0);
    if i == -1 then d
    else Desk(d.order + [i], d.used[i := true], d.visible[i := true], d.rects[i := r], i)
  }

  // --- the invariant --------------------------------------------------------

  lemma {:induction false} WithoutIsWindows(s: seq<int>, x: int)
    requires Windows(s)
    ensures Windows(Without(s, x))
  {
    if |s| > 0 && s[0] != x {
      WithoutIsWindows(s[1..], x);
    }
  }

  /** Where the first `x` stands, or the length. */
  ghost function Place(s: seq<int>, x: int): (k: nat)
    ensures k <= |s| && (forall j :: 0 <= j < k ==> s[j] != x) && (k < |s| ==> s[k] == x)
  {
    if |s| == 0 || s[0] == x then 0 else Place(s[1..], x) + 1
  }

  /** The list without place `k`, as the shifting loop leaves it. */
  ghost function Cut(s: seq<int>, k: nat): (r: seq<int>)
    requires k < |s|
    ensures |r| == |s| - 1 && forall j :: 0 <= j < |r| ==> r[j] == s[if j < k then j else j + 1]
  {
    s[..k] + s[k + 1..]
  }

  lemma {:induction false} WithoutIsCut(s: seq<int>, x: int)
    ensures Without(s, x) == if Place(s, x) < |s| then Cut(s, Place(s, x)) else s
  {
    if |s| > 0 && s[0] != x {
      var t := s[1..];
      WithoutIsCut(t, x);
      assert Place(s, x) == Place(t, x) + 1;
      WithoutStep(s, x);
      hide Without, Place, Cut;
      assert s == [s[0]] + t;
      if Place(s, x) < |s| {
        CutStep(s, Place(s, x));
      }
    }
  }

  /** Dropping the first occurrence, however it was found. */
  lemma WithoutAt(s: seq<int>, x: int, k: nat)
    requires k <= |s| && (forall j :: 0 <= j < k ==> s[j] != x) && (k < |s| ==> s[k] == x)
    ensures Without(s, x) == if k < |s| then Cut(s, k) else s
  {
    WithoutIsCut(s, x);
    hide Without, Place, Cut;
    assert k == Place(s, x);
  }

  lemma CutStep(s: seq<int>, k: nat)
    requires 0 < k < |s|
    ensures Cut(s, k) == [s[0]] + Cut(s[1..], k - 1)
  {
    hide Cut;
  }

  /** The places of a list without `x` and where they come from. */
  lemma WithoutPlaces(s: seq<int>, x: int) returns (k: nat)
    ensures k == Place(s, x)
    ensures |Without(s, x)| == if k < |s| then |s| - 1 else |s|
    ensures forall j :: 0 <= j < k ==> Without(s, x)[j] == s[j] && s[j] != x
    ensures forall j :: k <= j < |Without(s, x)| ==> Without(s, x)[j] == s[j + 1]
  {
    k := Place(s, x);
    WithoutIsCut(s, x);
    hide Without, Place;
  }

  /** Removing one entry of a duplicate-free list. */
  lemma WithoutMembers(s: seq<int>, x: int)
    requires Distinct(s)
    ensures Distinct(Without(s, x))
    ensures forall y :: y in Without(s, x) <==> y in s && y != x
    ensures |Without(s, x)| == if x in s then |s| - 1 else |s|
  {
    var k := WithoutPlaces(s, x);
    var r := Without(s, x);
    hide Without, Place;
    forall y | y in s && y != x ensures y in r {
      var i :| 0 <= i < |s| && s[i] == y;
      assert r[if i < k then i else i - 1] == y;
    }
  }

  /** Topmost is the one marked entry with nothing marked above it. */
  lemma {:induction false} TopmostIs(order: seq<int>, flags: seq<bool>, k: nat)
    requires Windows(order) && |flags| == MAX_WINDOWS && k < |order| && flags[order[k]]
    requires forall j :: k < j < |order| ==> !flags[order[j]]
    ensures Topmost(order, flags) == order[k]
    decreases |order|
  {
    if k < |order| - 1 {
      TopmostIs(order[..|order| - 1], flags, k);
    }
  }

  /** One round of a loop that looks for the topmost marked entry from above. */
  lemma TopmostStep(order: seq<int>, flags: seq<bool>, n: nat)
    requires Windows(order) && |flags| == MAX_WINDOWS && 0 < n <= |order|
    ensures Windows(order[..n]) && Windows(order[..n - 1])
    ensures Topmost(order[..n], flags)
         == if flags[order[n - 1]] then order[n - 1] else Topmost(order[..n - 1], flags)
  {
    assert order[..n][..n - 1] == order[..n - 1];
  }

  lemma TopmostNone(flags: seq<bool>)
    requires |flags| == MAX_WINDOWS
    ensures Topmost([], flags) == -1
  {
  }

  /** Where the topmost marked entry stands. */
  lemma {:induction false} TopmostAt(order: seq<int>, flags: seq<bool>) returns (k: nat)
    requires Windows(order) && |flags| == MAX_WINDOWS && Topmost(order, flags) != -1
    ensures k < |order| && order[k] == Topmost(order, flags) && flags[order[k]]
    ensures forall j :: k < j < |order| ==> !flags[order[j]]
    decreases |order|
  {
    k := |order| - 1;
    if !flags[order[k]] {
      k := TopmostAt(order[..k], flags);
    }
  }

  /** Entries that are not marked do not matter. */
  lemma {:induction false} TopmostWithout(order: seq<int>, flags: seq<bool>, x: int)
    requires Windows(order) && |flags| == MAX_WINDOWS && 0 <= x < MAX_WINDOWS && !flags[x]
    ensures Windows(Without(order, x)) && Topmost(Without(order, x), flags) == Topmost(order, flags)
    decreases |order|
  {
    WithoutIsWindows(order, x);
    if |order| > 0 {
      var last := |order| - 1;
      WithoutLast(order, x);
      TopmostWithout(order[..last], flags, x);
      hide Without;
      if order[last] != x || x in order[..last] {
        var r := Without(order[..last], x);
        assert (r + [order[last]])[..|r|] == r;
      } else {
        assert Without(order[..last], x) == order[..last];
      }
    }
  }

  lemma {:induction false} WithoutLast(s: seq<int>, x: int)
    requires |s| > 0
    ensures var init, last := s[..|s| - 1], s[|s| - 1];
      Without(s, x) == if x in init || last != x then Without(init, x) + [last] else init
  {
    var init, last := s[..|s| - 1], s[|s| - 1];
    if |s| > 1 {
      var t := s[1..];
      assert init == [s[0]] + init[1..] && t[..|t| - 1] == init[1..] && t[|t| - 1] == last;
      if s[0] == x {
        assert t == init[1..] + [last];
      } else {
        WithoutLast(t, x);
        hide Without;
        WithoutStep(s, x);
        WithoutStep(init, x);
      }
    }
  }

  lemma WithoutStep(s: seq<int>, x: int)
    requires |s| > 0 && s[0] != x
    ensures Without(s, x) == [s[0]] + Without(s[1..], x)
  {
  }

  /** Flags that agree on the order give the same topmost entry. */
  lemma {:induction false} TopmostSame(order: seq<int>, flags: seq<bool>, other: seq<bool>)
    requires Windows(order) && |flags| == MAX_WINDOWS && |other| == MAX_WINDOWS
    requires forall i :: i in order ==> flags[i] == other[i]
    ensures Topmost(order, other) == Topmost(order, flags)
    decreases |order|
  {
    if |order| > 0 {
      TopmostSame(order[..|order| - 1], flags, other);
    }
  }

  /** Unmarking an entry that is not the topmost one. */
  lemma TopmostUnmark(order: seq<int>, flags: seq<bool>, x: int)
    requires Windows(order) && Distinct(order) && |flags| == MAX_WINDOWS && 0 <= x < MAX_WINDOWS
    requires Topmost(order, flags) != x
    ensures Topmost(order, flags[x := false]) == Topmost(order, flags)
  {
    if Topmost(order, flags) == -1 {
      TopmostSame(order, flags, flags[x := false]);
    } else {
      var k := TopmostAt(order, flags);
      TopmostIs(order, flags[x := false], k);
    }
  }

  lemma RaiseKeepsInv(d: Desk, idx: int)
    requires Listing(d) && 0 <= idx < MAX_WINDOWS && d.visible[idx]
    ensures Inv(Raise(d, idx))
  {
    WithoutMembers(d.order, idx);
    WithoutIsWindows(d.order, idx);
    var rest := Without(d.order, idx);
    TopmostIs(rest + [idx], d.visible, |rest|);
  }

  lemma MinimiseKeepsInv(d: Desk, idx: int)
    requires Inv(d) && 0 <= idx < MAX_WINDOWS
    ensures Inv(Minimise(d, idx))
  {
    if d.focused != idx {
      TopmostUnmark(d.order, d.visible, idx);
    }
  }

  lemma CloseKeepsInv(d: Desk, idx: int)
    requires Inv(d) && 0 <= idx < MAX_WINDOWS
    ensures Inv(Close(d, idx))
  {
    WithoutMembers(d.order, idx);
    TopmostWithout(d.order, d.visible[idx := false], idx);
    if d.focused != idx {
      TopmostUnmark(d.order, d.visible, idx);
    }
  }

  lemma AddKeepsInv(d: Desk, r: Rect)
    requires Inv(d)
    ensures Inv(Add(d, r))
  {
    var i := FreeSlot(d.used, 0);
    if i != -1 {
      TopmostIs(d.order + [i], d.visible[i := true], |d.order|);
      assert forall j :: j in d.order + [i] <==> j in d.order || j == i;
    }
  }

  /** The window at place `k` of the order is visible and covered by no other. */
  ghost predicate OnTop(d: Desk, k: nat)
    requires Sized(d) && Windows(d.order) && k < |d.order|
  {
    d.visible[d.order[k]] && forall j :: k < j < |d.order| ==> !d.visible[d.order[j]]
  }

  /** What the invariant says about the focus: nobody has it exactly when no
      window is visible; otherwise the owner is visible and nothing above it is. */
  lemma FocusMeaning(d: Desk)
    requires Inv(d)
    ensures d.focused == -1 <==> forall i :: 0 <= i < MAX_WINDOWS ==> !d.visible[i]
    ensures d.focused != -1 ==> exists k :: 0 <= k < |d.order| && d.order[k] == d.focused && OnTop(d, k)
  {
    if d.focused != -1 {
      var k := TopmostAt(d.order, d.visible);
      assert d.order[k] == d.focused && OnTop(d, k);
    }
  }

  // --- the mouse ------------------------------------------------------------

  predicate Inside(r: Rect, mx: int, my: int) {
    r.x <= mx < r.x + r.w && r.y <= my < r.y + r.h
  }

  datatype Part = CloseLight | MinimiseLight | Elsewhere

  /** The part of a window a point in it is on; the lights are discs of radius 7
      in the title bar, 20 and 40 pixels in. */
  function PartAt(r: Rect, mx: int, my: int): Part {
    var dx, dy := mx - (r.x + 20), my - (r.y + 15);
    if my < r.y + TITLE_H && dx * dx + dy * dy <= 49 then CloseLight
    else if my < r.y + TITLE_H && (dx - 20) * (dx - 20) + dy * dy <= 49 then MinimiseLight
    else Elsewhere
  }

  /** The windows a click at the point could hit. */
  ghost function Under(d: Desk, mx: int, my: int): (flags: seq<bool>)
    requires Sized(d)
    ensures |flags| == MAX_WINDOWS
  {
    seq(MAX_WINDOWS, i requires 0 <= i < MAX_WINDOWS => d.visible[i] && Inside(d.rects[i], mx, my))
  }

  datatype Op = Open(r: Rect) | Restore(idx: int) | Press(mx: int, my: int)

  /** A press goes to the topmost visible window under the point: its lights
      close or minimise it, anything else raises it. */
  ghost function Pressed(d: Desk, mx: int, my: int): Desk
    requires Sized(d) && Windows(d.order)
  {
    var idx := Topmost(d.order, Under(d, mx, my));
    if idx == -1 then d
    else match PartAt(d.rects[idx], mx, my)
      case CloseLight => Close(d, idx)
      case MinimiseLight => Minimise(d, idx)
      case Elsewhere => Raise(d, idx)
  }

  // --- runs -----------------------------------------------------------------

  ghost function Step(d: Desk, op: Op): Desk
    requires Inv(d)
  {
    match op
    case Open(r) => Add(d, r)
    case Restore(idx) => if 0 <= idx < MAX_WINDOWS && d.used[idx] then Show(d, idx) else d
    case Press(mx, my) => Pressed(d, mx, my)
  }

  lemma StepKeepsInv(d: Desk, op: Op)
    requires Inv(d)
    ensures Inv(Step(d, op))
  {
    hide Inv, Pressed;
    match op
    case Open(r) => AddKeepsInv(d, r);
    case Restore(idx) => RestoreKeepsInv(d, idx);
    case Press(mx, my) => PressKeepsInv(d, mx, my);
  }

  lemma RestoreKeepsInv(d: Desk, idx: int)
    requires Inv(d)
    ensures Inv(Step(d, Restore(idx)))
  {
    hide Topmost, Distinct;
    if 0 <= idx < MAX_WINDOWS && d.used[idx] {
      RaiseKeepsInv(d.(visible := d.visible[idx := true]), idx);
    }
  }

  lemma PressKeepsInv(d: Desk, mx: int, my: int)
    requires Inv(d)
    ensures Inv(Step(d, Press(mx, my)))
  {
    hide PartAt, Topmost, Distinct, Close, Minimise, Raise;
    var idx := Topmost(d.order, Under(d, mx, my));
    if idx != -1 {
      CloseKeepsInv(d, idx);
      MinimiseKeepsInv(d, idx);
      RaiseKeepsInv(d, idx);
    }
  }

  /** No windows at all, as at boot. */
  ghost predicate Bare(d: Desk) {
    Inv(d) && d.order == []
  }

  ghost function Run(d: Desk, ops: seq<Op>): (r: Desk)
    requires Inv(d)
    ensures Inv(r)
    decreases |ops|
  {
    if |ops| == 0 then d
    else
      var before := Run(d, ops[..|ops| - 1]);
      StepKeepsInv(before, ops[|ops| - 1]);
      Step(before, ops[|ops| - 1])
  }

  /** The window an operation brings to the top, or -1. */
  ghost function Touched(d: Desk, op: Op): int
    requires Inv(d)
  {
    match op
    case Open(_) => FreeSlot(d.used, 0)
    case Restore(idx) => if 0 <= idx < MAX_WINDOWS && d.used[idx] then idx else -1
    case Press(mx, my) =>
      var idx := Topmost(d.order, Under(d, mx, my));
      if idx != -1 && PartAt(d.rects[idx], mx, my) == Elsewhere then idx else -1
  }

  /** How many steps of the run had been taken when window `i` last came to the
      top; 0 when it never did. */
  ghost function LastTouch(d: Desk, ops: seq<Op>, i: int): (t: nat)
    requires Inv(d)
    ensures t <= |ops|
    decreases |ops|
  {
    if |ops| == 0 then 0
    else if Touched(Run(d, ops[..|ops| - 1]), ops[|ops| - 1]) == i then |ops|
    else LastTouch(d, ops[..|ops| - 1], i)
  }

  /** Every entry of the list is lower on the scale than those after it. */
  ghost predicate Ascending(s: seq<int>, d: Desk, ops: seq<Op>)
    requires Inv(d)
  {
    forall i, j :: 0 <= i < j < |s| ==> LastTouch(d, ops, s[i]) < LastTouch(d, ops, s[j])
  }

  lemma WithoutAscending(s: seq<int>, x: int, d: Desk, ops: seq<Op>)
    requires Inv(d) && Ascending(s, d, ops)
    ensures Ascending(Without(s, x), d, ops)
  {
    var k := WithoutPlaces(s, x);
    var r := Without(s, x);
    hide Inv, LastTouch, Without, Place;
    forall i, j | 0 <= i < j < |r| ensures LastTouch(d, ops, r[i]) < LastTouch(d, ops, r[j]) {
      assert r[i] == s[if i < k then i else i + 1];
      assert r[j] == s[if j < k then j else j + 1];
    }
  }

  /** Windows keep their rank while a step touches none of them. */
  lemma AscendingNext(s: seq<int>, d: Desk, ops: seq<Op>, op: Op)
    requires Inv(d) && Ascending(s, d, ops)
    requires forall k :: 0 <= k < |s| ==> s[k] != Touched(Run(d, ops), op)
    ensures Ascending(s, d, ops + [op])
  {
    hide Inv, Touched;
    assert (ops + [op])[..|ops|] == ops;
  }

  /** What a step does to the order: one window may leave its place, and only
      the touched one comes back, on top. */
  lemma StepOrder(d: Desk, op: Op) returns (x: int)
    requires Inv(d)
    ensures Touched(d, op) == -1 ==> Step(d, op).order == d.order || Step(d, op).order == Without(d.order, x)
    ensures Touched(d, op) != -1 ==> x == Touched(d, op) && Step(d, op).order == Without(d.order, x) + [x]
  {
    hide PartAt;
    x := match op
      case Press(mx, my) => Topmost(d.order, Under(d, mx, my))
      case _ => Touched(d, op);
  }

  /** After any run from an empty desk the z-order is the order in which the
      windows last came to the top. */
  lemma {:induction false} OrderIsRecency(d: Desk, ops: seq<Op>)
    requires Bare(d)
    ensures Ascending(Run(d, ops).order, d, ops)
    decreases |ops|
  {
    hide Inv, Touched, Step;
    if |ops| > 0 {
      var last := |ops| - 1;
      var before, op := ops[..last], ops[last];
      assert before + [op] == ops;
      OrderIsRecency(d, before);
      var was := Run(d, before);
      OrderFacts(was);
      var x := StepOrder(was, op);
      var rest := Without(was.order, x);
      WithoutAscending(was.order, x, d, before);
      WithoutMembers(was.order, x);
      if Touched(was, op) == -1 {
        AscendingNext(rest, d, before, op);
        AscendingNext(was.order, d, before, op);
      } else {
        AscendingNext(rest, d, before, op);
        forall i | 0 <= i < |rest| ensures LastTouch(d, ops, rest[i]) < LastTouch(d, ops, x) {
          assert rest[i] in rest;
          assert LastTouch(d, ops, rest[i]) == LastTouch(d, before, rest[i]);
        }
      }
    }
  }

  lemma OrderFacts(d: Desk)
    requires Inv(d)
    ensures Sized(d) && Distinct(d.order) && Windows(d.order) && -1 !in d.order
  {
  }

  /** Window `a` lies somewhere below window `b`. */
  ghost predicate Below(s: seq<int>, a: int, b: int) {
    exists i, j :: 0 <= i < j < |s| && s[i] == a && s[j] == b
  }

  lemma WithoutKeepsBelow(s: seq<int>, x: int, a: int, b: int)
    requires Below(s, a, b) && a != x && b != x
    ensures Below(Without(s, x), a, b)
  {
    var k := WithoutPlaces(s, x);
    hide Without, Place;
    var i, j :| 0 <= i < j < |s| && s[i] == a && s[j] == b;
    var p, q := if i < k then i else i - 1, if j < k then j else j - 1;
    assert Without(s, x)[p] == a && Without(s, x)[q] == b;
  }

  /** What lies below what does not change when a list is extended. */
  lemma LongerKeepsBelow(s: seq<int>, x: int, a: int, b: int)
    requires Below(s, a, b)
    ensures Below(s + [x], a, b)
  {
    var i, j :| 0 <= i < j < |s| && s[i] == a && s[j] == b;
    assert (s + [x])[i] == a && (s + [x])[j] == b;
  }

  /** Windows that a step neither touches nor closes keep their relative order. */
  lemma RelativeOrderKept(d: Desk, op: Op, a: int, b: int)
    requires Inv(d) && Below(d.order, a, b)
    requires a in Step(d, op).order && b in Step(d, op).order && a != Touched(d, op) && b != Touched(d, op)
    ensures Below(Step(d, op).order, a, b)
  {
    var x := StepOrder(d, op);
    OrderFacts(d);
    hide Inv, Touched, Step, Below, Distinct, Windows, Without;
    WithoutMembers(d.order, x);
    if a != x && b != x {
      WithoutKeepsBelow(d.order, x, a, b);
      LongerKeepsBelow(Without(d.order, x), x, a, b);
    }
  }

  /** Closing the window just opened restores everything but its rectangle. */
  lemma CloseUndoesOpen(d: Desk, r: Rect)
    requires Inv(d) && FreeSlot(d.used, 0) != -1
    ensures var i := FreeSlot(d.used, 0);
      && Inv(Add(d, r))
      && Close(Add(d, r), i) == d.(rects := d.rects[i := r])
  {
    hide Distinct, Without;
    var i := FreeSlot(d.used, 0);
    AddKeepsInv(d, r);
    WithoutEnd(d.order, i);
    assert d.used[i := true][i := false] == d.used && d.visible[i := true][i := false] == d.visible;
  }

  lemma {:induction false} WithoutEnd(s: seq<int>, x: int)
    requires x !in s
    ensures Without(s + [x], x) == s
  {
    if |s| > 0 {
      assert (s + [x])[1..] == s[1..] + [x];
      WithoutEnd(s[1..], x);
    }
  }

  /** With the invariant there is always room in the order for an unused slot. */
  lemma OrderHasRoom(d: Desk)
    requires Inv(d)
    ensures |d.order| <= MAX_WINDOWS
    ensures FreeSlot(d.used, 0) != -1 ==> |d.order| < MAX_WINDOWS
  {
    var i := FreeSlot(d.used, 0);
    OrderSlots(d);
    hide Inv;
    Listed(d.order);
    Within(Members(d.order), if i == -1 then Slots(MAX_WINDOWS) else Slots(MAX_WINDOWS) - {i});
  }

  ghost function Members(s: seq<int>): set<int> {
    set x | x in s
  }

  lemma OrderSlots(d: Desk)
    requires Inv(d)
    ensures Distinct(d.order) && |d.used| == MAX_WINDOWS
    ensures Members(d.order) <= Slots(MAX_WINDOWS)
    ensures FreeSlot(d.used, 0) != -1 ==> FreeSlot(d.used, 0) !in Members(d.order)
  {
    hide Topmost;
  }

  ghost function Slots(n: nat): (s: set<int>)
    ensures |s| == n && forall i :: i in s <==> 0 <= i < n
  {
    if n == 0 then {} else Slots(n - 1) + {n - 1}
  }

  lemma {:induction false} Listed(s: seq<int>)
    requires Distinct(s)
    ensures |Members(s)| == |s|
  {
    if |s| == 0 {
      assert Members(s) == {};
    } else {
      var last := |s| - 1;
      Listed(s[..last]);
      assert Members(s) == Members(s[..last]) + {s[last]};
    }
  }

  lemma {:induction false} Within<T>(a: set<T>, b: set<T>)
    requires a <= b
    ensures |a| <= |b|
  {
    if a != {} {
      var x :| x in a;
      Within(a - {x}, b - {x});
      assert a == (a - {x}) + {x} && b == (b - {x}) + {x};
    }
  }
}
