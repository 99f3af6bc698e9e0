/** The window arrays of kernel/gui.c, updated in place. */
module WindowManager {
  import opened WindowOrder

  class WindowTable {
    const zorder: array<int>
    var zcount: nat
    const used: array<bool>
    const visible: array<bool>
    const rects: array<Rect>
    var focused: int

    ghost predicate Shape()
      reads this, zorder, used, visible, rects
    {
      && zorder.Length == 8 && used.Length == 8 && visible.Length == 8 && rects.Length == 8
      && used != visible && zcount <= 8
    }

    ghost function View(): Desk
      requires zcount <= zorder.Length
      reads this, zorder, used, visible, rects
    {
      Desk(zorder[..zcount], used[..], visible[..], rects[..], focused)
    }

    ghost predicate Valid()
      reads this, zorder, used, visible, rects
    {
      Shape() && Inv(View())
    }

    /** The state at boot. */
    constructor ()
      ensures Valid() && Bare(View())
      ensures fresh(zorder) && fresh(used) && fresh(visible) && fresh(rects)
    {
      zorder := new int[8](_ => 0);
      zcount, focused := 0, -1;
      used := new bool[8](_ => false);
      visible := new bool[8](_ => false);
      rects := new Rect[8](_ => Rect(0, 0, 0, 0));
    }

    /** The search both raise_window and close_window start with. */
    method Find(idx: int) returns (zi: nat)
      requires Shape()
      ensures zi <= zcount && forall k :: 0 <= k < zi ==> zorder[k] != idx
      ensures zi < zcount ==> zorder[zi] == idx
      ensures zi == zcount <==> idx !in zorder[..zcount]
    {
      zi := 0;
      while zi < zcount && zorder[zi] != idx
        invariant zi <= zcount && forall k :: 0 <= k < zi ==> zorder[k] != idx
      {
        zi := zi + 1;
      }
    }

    /** The entries above position `at` move down by one. */
    method ShiftDown(at: nat)
      requires Shape() && at < zcount
      modifies zorder
      ensures Shape() && zorder[..zcount - 1] == Cut(old(zorder[..zcount]), at)
    {
      var zi := at;
      while zi < zcount - 1
        invariant at <= zi <= zcount - 1
        invariant forall k :: 0 <= k < 8 && (k < at || k >= zi) ==> zorder[k] == old(zorder[k])
        invariant forall k :: at <= k < zi ==> zorder[k] == old(zorder[k + 1])
      {
        zorder[zi] := zorder[zi + 1];
        zi := zi + 1;
      }
    }

    /** raise_window. */
    method Raise(idx: int)
      requires Shape()
      modifies this`focused, zorder
      ensures Shape() && View() == WindowOrder.Raise(old(View()), idx)
    {
      hide Topmost, Distinct, Windows, Inv, Without, Cut;
      ghost var was := zorder[..zcount];
      var zi := Find(idx);
      if zi == zcount {
        return;
      }
      WithoutAt(was, idx, zi);
      ShiftDown(zi);
      zorder[zcount - 1] := idx;
      focused := idx;
      assert zorder[..zcount] == zorder[..zcount - 1] + [idx];
    }

    /** focus_topmost_visible. */
    method FocusTopmost()
      requires Shape() && Windows(zorder[..zcount])
      modifies this`focused
      ensures Shape() && View() == old(View()).(focused := Topmost(zorder[..zcount], visible[..]))
    {
      hide Topmost, Inv, Distinct;
      ghost var order, flags := zorder[..zcount], visible[..];
      focused := -1;
      var zi := zcount;
      assert order[..zi] == order;
      TopmostNone(flags);
      while zi > 0
        invariant zi <= zcount && focused == -1
        invariant Topmost(order, flags) == Topmost(order[..zi], flags)
      {
        TopmostStep(order, flags, zi);
        zi := zi - 1;
        if visible[zorder[zi]] {
          focused := zorder[zi];
          return;
        }
      }
    }

    /** close_window, after its on_close callback. */
    method Close(idx: int)
      requires Valid() && 0 <= idx < 8
      modifies this`focused, this`zcount, zorder, used, visible
      ensures Valid() && View() == WindowOrder.Close(old(View()), idx)
    {
      hide Topmost, Distinct, Inv, Without, Windows, Cut;
      ghost var d := View();
      CloseKeepsInv(d, idx);
      OrderFacts(d);
      WithoutIsWindows(d.order, idx);
      used[idx] := false;
      visible[idx] := false;
      var zi := Find(idx);
      WithoutAt(d.order, idx, zi);
      if zi < zcount {
        ShiftDown(zi);
        zcount := zcount - 1;
      }
      assert zorder[..zcount] == Without(d.order, idx);
      if focused == idx {
        FocusTopmost();
      }
    }

    /** add_window: the slot taken, or -1. */
    method Add(r: Rect) returns (slot: int)
      requires Valid()
      modifies this`focused, this`zcount, zorder, used, visible, rects
      ensures Valid() && View() == WindowOrder.Add(old(View()), r) && slot == FreeSlot(old(used[..]), 0)
    {
      hide Topmost, Distinct, Inv, Windows;
      ghost var d := View();
      AddKeepsInv(d, r);
      OrderHasRoom(d);
      var i := 0;
      while i < 8
        invariant i <= 8 && View() == d && FreeSlot(d.used, i) == FreeSlot(d.used, 0)
      {
        if !used[i] {
          rects[i] := r;
          visible[i] := true;
          used[i] := true;
          zorder[zcount] := i;
          zcount := zcount + 1;
          focused := i;
          assert zorder[..zcount] == d.order + [i];
          return i;
        }
        i := i + 1;
      }
      slot := -1;
    }

    /** show_and_raise, also the taskbar's button. */
    method Show(idx: int)
      requires Valid() && 0 <= idx < 8 && used[idx]
      modifies this`focused, zorder, visible
      ensures Valid() && View() == Step(old(View()), Restore(idx))
    {
      StepKeepsInv(View(), Restore(idx));
      hide Topmost, Distinct;
      visible[idx] := true;
      Raise(idx);
    }

    /** The minimise light. */
    method Minimise(idx: int)
      requires Valid() && 0 <= idx < 8
      modifies this`focused, visible
      ensures Valid() && View() == WindowOrder.Minimise(old(View()), idx)
    {
      MinimiseKeepsInv(View(), idx);
      hide Topmost, Distinct;
      visible[idx] := false;
      if focused == idx {
        FocusTopmost();
      }
    }

    /** The topmost visible window under the pointer, or -1. */
    method Hit(mx: int, my: int) returns (idx: int)
      requires Shape() && Windows(zorder[..zcount])
      ensures idx == Topmost(zorder[..zcount], Under(View(), mx, my))
    {
      hide Topmost, Inv, Distinct;
      ghost var order, flags := zorder[..zcount], Under(View(), mx, my);
      var zi := zcount;
      assert order[..zi] == order;
      TopmostNone(flags);
      while zi > 0
        invariant zi <= zcount && Topmost(order, flags) == Topmost(order[..zi], flags)
      {
        TopmostStep(order, flags, zi);
        zi := zi - 1;
        var i := zorder[zi];
        if visible[i] && Inside(rects[i], mx, my) {
          return i;
        }
      }
      idx := -1;
    }

    /** The windows' part of handle_button_down: the topmost visible window under
        the pointer takes the press. */
    method Press(mx: int, my: int) returns (hit: bool)
      requires Valid()
      modifies this`focused, this`zcount, zorder, used, visible
      ensures Valid() && View() == Step(old(View()), WindowOrder.Press(mx, my))
      ensures hit <==> old(Topmost(zorder[..zcount], Under(View(), mx, my))) != -1
    {
      hide Inv, Without, Distinct, PartAt, Topmost, Under;
      StepKeepsInv(View(), WindowOrder.Press(mx, my));
      OrderFacts(View());
      var idx := Hit(mx, my);
      hit := idx != -1;
      if hit {
        match PartAt(rects[idx], mx, my) {
          case CloseLight => Close(idx);
          case MinimiseLight => Minimise(idx);
          case Elsewhere => Raise(idx);
        }
      }
    }
  }
}
