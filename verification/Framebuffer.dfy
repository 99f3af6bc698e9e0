/** The screen, its backbuffer and the mouse cursor drawn over it. */
module Framebuffer {
  import opened Bytes
  import opened Pixels
  import opened Lines

  /** The cursor as it should appear: its sprite with the top left corner at
      (x, y), when there is one to draw. */
  datatype Overlay = Overlay(on: bool, argb: seq<u32>, w: nat, h: nat, x: int, y: int)

  predicate ValidOverlay(o: Overlay) {
    |o.argb| == o.h * o.w
  }

  predicate InRect(x: int, y: int, w: int, h: int, u: int, v: int) {
    x <= u < x + w && y <= v < y + h
  }

  predicate UnderSprite(o: Overlay, u: int, v: int) {
    o.on && InRect(o.x, o.y, o.w, o.h, u, v)
  }

  lemma SpriteIndex(o: Overlay, u: int, v: int)
    requires ValidOverlay(o) && UnderSprite(o, u, v)
    ensures 0 <= (v - o.y) * o.w + (u - o.x) < |o.argb|
  {
    MulMono(v - o.y + 1, o.h, o.w);
    MulMono(0, v - o.y, o.w);
    assert (v - o.y + 1) * o.w == (v - o.y) * o.w + o.w;
  }

  /** The sprite's value at a screen position. */
  function SpriteAt(o: Overlay, u: int, v: int): u32
    requires ValidOverlay(o) && UnderSprite(o, u, v)
  {
    SpriteIndex(o, u, v);
    o.argb[(v - o.y) * o.w + (u - o.x)]
  }

  /** A sprite value over a background, blended by its alpha byte. */
  function Blend(s: u32, bg: Rgb): Rgb {
    var a, c := s / 0x100_0000, Colour(s);
    Rgb(Mix(c.b, bg.b, a), Mix(c.g, bg.g, a), Mix(c.r, bg.r, a))
  }

  lemma MixEnds(s: byte, bg: byte)
    ensures Mix(s, bg, 0) == bg && Mix(s, bg, 255) == s
  {
  }

  /** Byte `c` is byte `k` of sprite value `s` blended over background byte `bg`. */
  predicate ShowsBlend(s: u32, k: nat, bg: byte, c: byte)
    requires k < 3
  {
    255 * c <= ByteOf(s, k) * ByteOf(s, 3) + bg * (255 - ByteOf(s, 3)) < 255 * c + 255
  }

  lemma BlendEnds(s: u32, bg: Rgb)
    ensures s / 0x100_0000 == 0 ==> Blend(s, bg) == bg
    ensures s / 0x100_0000 == 255 ==> Blend(s, bg) == Colour(s)
  {
    hide Mix;
    var c := Colour(s);
    MixEnds(c.b, bg.b);
    MixEnds(c.g, bg.g);
    MixEnds(c.r, bg.r);
  }

  /** Byte `k` of a number, counted from the lowest. */
  function ByteOf(x: u32, k: nat): byte
    requires k < 4
  {
    if k == 0 then x % 0x100 else if k == 1 then x / 0x100 % 0x100 else if k == 2 then x / 0x1_0000 % 0x100
    else x / 0x100_0000
  }

  lemma BytesMake(x: u32)
    ensures x == ByteOf(x, 0) + 0x100 * ByteOf(x, 1) + 0x1_0000 * ByteOf(x, 2) + 0x100_0000 * ByteOf(x, 3)
  {
    var h := x / 0x100;
    assert x / 0x1_0000 == h / 0x100 && x / 0x100_0000 == h / 0x100 / 0x100;
  }

  /** Channel `k` of a pixel, in memory order: blue, green, red. */
  function Channel(c: Rgb, k: nat): byte
    requires k < 3
  {
    if k == 0 then c.b else if k == 1 then c.g else c.r
  }

  lemma ColourChannel(rgb: u32, k: nat)
    requires k < 3
    ensures Channel(Colour(rgb), k) == ByteOf(rgb, k)
  {
  }

  lemma PixelChannel(m: Mode, buf: seq<byte>, x: int, y: int, k: nat)
    requires ValidMode(m) && |buf| == Size(m) && OnScreen(m, x, y) && k < 3
    ensures 0 <= y * m.pitch + x * m.bypp && y * m.pitch + x * m.bypp + k < |buf|
    ensures Channel(PixelOf(m, buf, x, y), k) == buf[y * m.pitch + x * m.bypp + k]
  {
    OffBounds(m, x, y);
  }

  /** What blending computes, channel by channel: the mean of sprite and
      background weighted by the alpha byte, rounded down. */
  lemma BlendIs(s: u32, bg: Rgb, k: nat)
    requires k < 3
    ensures var c, a := Channel(Blend(s, bg), k), ByteOf(s, 3);
      255 * c <= ByteOf(s, k) * a + Channel(bg, k) * (255 - a) < 255 * c + 255
  {
    hide Mix, Colour;
    ColourChannel(s, k);
  }

  /** What the screen shows at a position when it is painted afresh. */
  function Composed(o: Overlay, bg: Rgb, u: int, v: int): Rgb
    requires ValidOverlay(o)
  {
    if UnderSprite(o, u, v) then Blend(SpriteAt(o, u, v), bg) else bg
  }

  /** Away from the sprite the picture shows as drawn. */
  lemma ComposedOutside(o: Overlay)
    requires ValidOverlay(o)
    ensures forall bg, u, v :: !UnderSprite(o, u, v) ==> Composed(o, bg, u, v) == bg
  {
  }

  /** Cleaning two places after a change that touched nothing else. */
  lemma BothCleaned(was: iset<(int, int)>, moved: iset<(int, int)>, left: iset<(int, int)>,
                    x: int, y: int, u: int, v: int, w: int, h: int)
    requires forall p: (int, int) :: !InRect(x, y, w, h, p.0, p.1) && !InRect(u, v, w, h, p.0, p.1) ==>
      (p in moved <==> p in was)
    requires left == iset p | p in moved && !InRect(x, y, w, h, p.0, p.1)
    ensures (iset p | p in left && !InRect(u, v, w, h, p.0, p.1))
         == iset p | p in was && !InRect(x, y, w, h, p.0, p.1) && !InRect(u, v, w, h, p.0, p.1)
  {
    hide InRect;
  }


  class Screen {
    const mode: Mode
    const lfb: array<byte>
    var backbuf: array?<byte>
    var hasSprite: bool
    var argb: seq<u32>
    var curW: nat
    var curH: nat
    var hotX: int
    var hotY: int
    var curX: int
    var curY: int
    var visible: bool

    ghost predicate Valid()
      reads this
    {
      && ValidMode(mode) && lfb.Length == Size(mode)
      && (backbuf != null ==> backbuf.Length == Size(mode) && backbuf != lfb)
      && ValidOverlay(Cursor())
    }

    /** Nothing is overlaid while drawing goes straight to the screen. */
    ghost function Cursor(): Overlay
      reads this
    {
      Overlay(visible && hasSprite && backbuf != null, argb, curW, curH, curX - hotX, curY - hotY)
    }

    /** Where drawing goes. */
    function Target(): array<byte>
      reads this
    {
      if backbuf == null then lfb else backbuf
    }

    ghost function OnLfb(u: int, v: int): Rgb
      requires Valid() && OnScreen(mode, u, v)
      reads this, lfb
    {
      PixelOf(mode, lfb[..], u, v)
    }

    /** The picture without the cursor. */
    ghost function Drawn(u: int, v: int): Rgb
      requires Valid() && OnScreen(mode, u, v)
      reads this, Target()
    {
      PixelOf(mode, Target()[..], u, v)
    }

    /** The pixel a full recomposite would show. */
    ghost function Wanted(u: int, v: int): Rgb
      requires Valid() && OnScreen(mode, u, v)
      reads this, Target()
    {
      Composed(Cursor(), Drawn(u, v), u, v)
    }

    /** The positions whose pixel is not what a full recomposite would show. */
    ghost function Dirty(): iset<(int, int)>
      requires Valid()
      reads this, lfb, Target()
    {
      iset u, v | OnScreen(mode, u, v) && OnLfb(u, v) != Wanted(u, v) :: (u, v)
    }

    /** fb_init on a mapped screen. */
    constructor (mode: Mode, lfb: array<byte>)
      requires ValidMode(mode) && lfb.Length == Size(mode)
      ensures Valid() && this.mode == mode && this.lfb == lfb && backbuf == null && !visible && !hasSprite
      ensures Dirty() == iset{}
    {
      this.mode, this.lfb, backbuf := mode, lfb, null;
      hasSprite, argb, curW, curH, hotX, hotY, curX, curY, visible := false, [], 0, 0, 0, 0, 0, 0, false;
    }

    /** fb_enable_backbuffer, told whether kmalloc found memory: a copy of the
        screen, so an unseen cursor leaves nothing to repaint. */
    method EnableBackbuffer(memory: bool)
      requires Valid() && !visible && backbuf == null
      modifies this`backbuf
      ensures Valid() && (backbuf != null <==> memory) && (memory ==> fresh(backbuf))
      ensures Dirty() == iset{}
    {
      if memory {
        var copy := new byte[lfb.Length];
        CopyBytes(copy, lfb, 0, lfb.Length);
        assert copy[..] == lfb[..];
        backbuf := copy;
      }
    }

    /** fb_set_cursor_sprite, while the cursor is not shown. */
    method SetCursorSprite(sprite: seq<u32>, w: nat, h: nat, hx: int, hy: int)
      requires Valid() && !visible && |sprite| == h * w
      modifies this`hasSprite, this`argb, this`curW, this`curH, this`hotX, this`hotY
      ensures Valid() && Dirty() == old(Dirty())
      ensures Cursor() == Overlay(false, sprite, w, h, curX - hx, curY - hy) && hasSprite && hotX == hx && hotY == hy
    {
      hasSprite, argb, curW, curH, hotX, hotY := true, sprite, w, h, hx, hy;
    }

    // --- drawing ---------------------------------------------------------------

    /** fb_putpixel: clipped; only that position can become dirty. */
    method PutPixel(x: int, y: int, rgb: u32)
      requires Valid()
      modifies Target()
      ensures Valid()
      ensures forall u, v :: OnScreen(mode, u, v) ==>
        Drawn(u, v) == if u == x && v == y then Colour(rgb) else old(Drawn(u, v))
      ensures backbuf != null ==> lfb[..] == old(lfb[..])
      ensures Dirty() <= old(Dirty()) + iset{(x, y)}
    {
      hide PixelOf, ValidOverlay, Colour;
      if x < 0 || y < 0 || x >= mode.width || y >= mode.height {
        return;
      }
      StorePixel(mode, Target(), x, y, Colour(rgb));
    }

    /** fb_fill_rect: clipped; only the rectangle can become dirty. */
    method FillRect(x: int, y: int, w: int, h: int, rgb: u32)
      requires Valid()
      modifies Target()
      ensures Valid()
      ensures forall u, v :: OnScreen(mode, u, v) ==>
        Drawn(u, v) == if InRect(x, y, w, h, u, v) then Colour(rgb) else old(Drawn(u, v))
      ensures backbuf != null ==> lfb[..] == old(lfb[..])
      ensures Dirty() <= old(Dirty()) + iset u, v | OnScreen(mode, u, v) && InRect(x, y, w, h, u, v) :: (u, v)
    {
      hide PixelOf, ValidOverlay, Colour;
      var cx, cy, cw, ch := Clip(x, y, w, h);
      if cw <= 0 || ch <= 0 {
        return;
      }
      var row := cy;
      while row < cy + ch
        invariant cy <= row <= cy + ch && Valid()
        invariant forall u, v :: OnScreen(mode, u, v) ==>
          Drawn(u, v) == if InRect(cx, cy, cw, row - cy, u, v) then Colour(rgb) else old(Drawn(u, v))
        invariant backbuf != null ==> lfb[..] == old(lfb[..])
      {
        var i := 0;
        while i < cw
          invariant 0 <= i <= cw && Valid()
          invariant forall u, v :: OnScreen(mode, u, v) ==>
            Drawn(u, v) ==
              if InRect(cx, cy, cw, row - cy, u, v) || InRect(cx, row, i, 1, u, v) then Colour(rgb)
              else old(Drawn(u, v))
          invariant backbuf != null ==> lfb[..] == old(lfb[..])
        {
          StorePixel(mode, Target(), cx + i, row, Colour(rgb));
          i := i + 1;
        }
        row := row + 1;
      }
    }

    /** fb_line: `plotted` is every fb_putpixel the loop makes, in order. The
        coordinates are small enough for the doubled error term to fit an int. */
    method Line(x0: int, y0: int, x1: int, y1: int, rgb: u32) returns (ghost plotted: seq<Point>)
      requires Valid()
      requires Steps(Point(x0, y0), Point(x1, y1)) <= 0x2AAA_AAAA
      modifies Target()
      ensures Valid() && plotted == Points(Point(x0, y0), Point(x1, y1))
      ensures forall u, v :: OnScreen(mode, u, v) ==>
        Drawn(u, v) == if Point(u, v) in plotted then Colour(rgb) else old(Drawn(u, v))
      ensures backbuf != null ==> lfb[..] == old(lfb[..])
      ensures Dirty() <= old(Dirty()) + iset u, v | OnScreen(mode, u, v) && Point(u, v) in plotted :: (u, v)
    {
      hide PixelOf, ValidOverlay, Colour, ValidMode, PointAt, At, Error, Points;
      ghost var a, b := Point(x0, y0), Point(x1, y1);
      var dx := if x1 > x0 then x1 - x0 else x0 - x1;
      var dy := if y1 > y0 then y1 - y0 else y0 - y1;
      var sx := if x0 < x1 then 1 else -1;
      var sy := if y0 < y1 then 1 else -1;
      var err := dx - dy;
      var x, y := x0, y0;
      ghost var k, i, j := 0, 0, 0;
      plotted := [];
      AtStart(a, b);
      while true
        invariant Valid() && 0 <= k <= Steps(a, b) && At(a, b, k, i, j, err, Point(x, y))
        invariant plotted == Points(a, b)[..k]
        invariant forall u, v :: OnScreen(mode, u, v) ==>
          Drawn(u, v) == if Point(u, v) in plotted then Colour(rgb) else old(Drawn(u, v))
        invariant backbuf != null ==> lfb[..] == old(lfb[..])
        decreases Steps(a, b) - k
      {
        PutPixel(x, y, rgb);
        AtPoint(a, b, k, i, j, err, Point(x, y));
        EndsOnce(a, b, k);
        NextPoint(a, b, k);
        plotted := plotted + [Point(x, y)];
        if x == x1 && y == y1 {
          break;
        }
        var e2 := err * 2;
        AtSmall(a, b, k, i, j, err, Point(x, y));
        assert -0x8000_0000 <= e2 < 0x8000_0000;
        AtNext(a, b, k, i, j, err, Point(x, y));
        if e2 > -dy {
          err, x, i := err - dy, x + sx, i + 1;
        }
        if e2 < dx {
          err, y, j := err + dx, y + sy, j + 1;
        }
        k := k + 1;
      }
      assert Points(a, b)[..Steps(a, b) + 1] == Points(a, b);
    }

    /** The clipping of fb_fill_rect and fb_flip_rect. */
    method Clip(x: int, y: int, w: int, h: int) returns (cx: int, cy: int, cw: int, ch: int)
      ensures forall u, v :: OnScreen(mode, u, v) && InRect(x, y, w, h, u, v) <==> InRect(cx, cy, cw, ch, u, v)
      ensures cw > 0 && ch > 0 ==> OnScreen(mode, cx, cy) && cx + cw <= mode.width && cy + ch <= mode.height
      ensures 0 <= cx && 0 <= cy
    {
      cx, cy, cw, ch := x, y, w, h;
      if cx < 0 {
        cw, cx := cw + cx, 0;
      }
      if cy < 0 {
        ch, cy := ch + cy, 0;
      }
      if cx + cw > mode.width {
        cw := mode.width - cx;
      }
      if cy + ch > mode.height {
        ch := mode.height - cy;
      }
    }

    // --- repainting ------------------------------------------------------------

    /** The inner loop of composite_cursor: the sprite's pixels of one row. A
        transparent pixel is skipped and an opaque one stored, which is what
        blending would give. */
    method CompositeRow(x0: int, x1: int, y: int)
      requires Valid() && backbuf != null && 0 <= y < mode.height && 0 <= x0 && x1 <= mode.width
      requires forall u :: x0 <= u < x1 ==> UnderSprite(Cursor(), u, y) && OnLfb(u, y) == Drawn(u, y)
      modifies lfb
      ensures Valid()
      ensures forall u, v :: OnScreen(mode, u, v) ==>
        OnLfb(u, v) == if v == y && x0 <= u < x1 then Wanted(u, v) else old(OnLfb(u, v))
    {
      hide PixelOf, Blend, Colour;
      ghost var o := Cursor();
      var x := x0;
      while x < x1
        invariant x0 <= x && (x == x0 || x <= x1) && Valid()
        invariant forall u, v :: OnScreen(mode, u, v) ==>
          OnLfb(u, v) == if v == y && x0 <= u < x then Wanted(u, v) else old(OnLfb(u, v))
      {
        assert OnScreen(mode, x, y) && UnderSprite(o, x, y);
        SpriteIndex(o, x, y);
        var s := argb[(y - (curY - hotY)) * curW + (x - (curX - hotX))];
        var a := s / 0x100_0000;
        BlendEnds(s, Drawn(x, y));
        assert Wanted(x, y) == Blend(s, Drawn(x, y));
        if a != 0 {
          var c := Colour(s);
          if a != 255 {
            var bg := Read(backbuf, x, y);
            c := Blend(s, bg);
          }
          StorePixel(mode, lfb, x, y, c);
        }
        x := x + 1;
      }
    }

    method Read(buf: array<byte>, x: int, y: int) returns (c: Rgb)
      requires ValidMode(mode) && buf.Length == Size(mode) && OnScreen(mode, x, y)
      ensures c == PixelOf(mode, buf[..], x, y)
    {
      OffBounds(mode, x, y);
      var off := Off(mode, x, y);
      c := Rgb(buf[off], buf[off + 1], buf[off + 2]);
    }

    /** composite_cursor over a rectangle that has just been copied from the
        backbuffer. */
    method CompositeCursor(rx: int, ry: int, rw: int, rh: int)
      requires Valid()
      requires backbuf != null ==>
        forall u, v :: OnScreen(mode, u, v) && InRect(rx, ry, rw, rh, u, v) ==> OnLfb(u, v) == Drawn(u, v)
      modifies lfb
      ensures Valid()
      ensures backbuf == null ==> lfb[..] == old(lfb[..])
      ensures backbuf != null ==> forall u, v :: OnScreen(mode, u, v) ==>
        OnLfb(u, v) == if InRect(rx, ry, rw, rh, u, v) then Wanted(u, v) else old(OnLfb(u, v))
    {
      hide PixelOf, Blend, SpriteAt;
      if !visible || !hasSprite || backbuf == null {
        return;
      }
      var sx, sy := curX - hotX, curY - hotY;
      var x0, y0 := Max(rx, sx), Max(ry, sy);
      var x1, y1 := Min(rx + rw, sx + curW), Min(ry + rh, sy + curH);
      x0, y0, x1, y1 := Max(x0, 0), Max(y0, 0), Min(x1, mode.width), Min(y1, mode.height);
      var y := y0;
      while y < y1
        invariant y0 <= y && (y == y0 || y <= y1) && Valid()
        invariant forall u, v :: OnScreen(mode, u, v) ==>
          OnLfb(u, v) == if x0 <= u < x1 && y0 <= v < y then Wanted(u, v) else old(OnLfb(u, v))
      {
        CompositeRow(x0, x1, y);
        y := y + 1;
      }
    }

    /** fb_flip: afterwards nothing is dirty. */
    method Flip()
      requires Valid()
      modifies lfb
      ensures Valid() && Dirty() == iset{}
    {
      hide PixelOf, Composed, ValidOverlay;
      if backbuf == null {
        NothingOverlaid();
        return;
      }
      CopyBytes(lfb, backbuf, 0, lfb.Length);
      assert lfb[..] == backbuf[..];
      CompositeCursor(0, 0, mode.width, mode.height);
    }

    /** Without a backbuffer the screen is always right. */
    lemma NothingOverlaid()
      requires Valid() && backbuf == null
      ensures Dirty() == iset{}
    {
    }

    /** fb_flip_rect: exactly the rectangle is cleaned. */
    method FlipRect(x: int, y: int, w: int, h: int)
      requires Valid()
      modifies lfb
      ensures Valid()
      ensures Dirty() == iset p | p in old(Dirty()) && !InRect(x, y, w, h, p.0, p.1)
      ensures forall u, v :: OnScreen(mode, u, v) && !InRect(x, y, w, h, u, v) ==> OnLfb(u, v) == old(OnLfb(u, v))
    {
      hide PixelOf, Composed, ValidOverlay;
      if backbuf == null {
        NothingOverlaid();
        return;
      }
      var cx, cy, cw, ch := Clip(x, y, w, h);
      if cw <= 0 || ch <= 0 {
        return;
      }
      var row := cy;
      while row < cy + ch
        invariant cy <= row <= cy + ch && Valid()
        invariant forall u, v :: OnScreen(mode, u, v) ==>
          OnLfb(u, v) == if InRect(cx, cy, cw, row - cy, u, v) then Drawn(u, v) else old(OnLfb(u, v))
      {
        CopyRow(mode, lfb, backbuf, cx, row, cw);
        row := row + 1;
      }
      CompositeCursor(cx, cy, cw, ch);
      assert forall u, v :: OnScreen(mode, u, v) ==>
        OnLfb(u, v) == if InRect(x, y, w, h, u, v) then Wanted(u, v) else old(OnLfb(u, v));
    }

    /** The bytes of a screen with nothing dirty, such as Flip leaves it: under the
        sprite each of a pixel's three bytes is the mean of the sprite's and the
        backbuffer's, weighted by the sprite's alpha; elsewhere it is the
        backbuffer's. */
    lemma CleanBytes(u: int, v: int, k: nat)
      requires Valid() && backbuf != null && Dirty() == iset{}
      requires 0 <= u < mode.width && 0 <= v < mode.height && k < 3
      ensures var at := v * mode.pitch + u * mode.bypp + k;
        && 0 <= at < lfb.Length == backbuf.Length
        && var x, y := u - (curX - hotX), v - (curY - hotY);
           if visible && hasSprite && 0 <= x < curW && 0 <= y < curH then
             0 <= y * curW + x < |argb| && ShowsBlend(argb[y * curW + x], k, backbuf[at], lfb[at])
           else lfb[at] == backbuf[at]
    {
      hide Blend, PixelOf, Colour;
      assert (u, v) !in Dirty();
      PixelChannel(mode, lfb[..], u, v, k);
      PixelChannel(mode, backbuf[..], u, v, k);
      if UnderSprite(Cursor(), u, v) {
        SpriteIndex(Cursor(), u, v);
        BlendIs(SpriteAt(Cursor(), u, v), Drawn(u, v), k);
      }
    }

    /** The bytes of a pixel drawn in a colour. */
    lemma DrawnBytes(u: int, v: int, k: nat, rgb: u32)
      requires Valid() && OnScreen(mode, u, v) && k < 3 && Drawn(u, v) == Colour(rgb)
      ensures var at := v * mode.pitch + u * mode.bypp + k;
        0 <= at < Target().Length && Target()[at] == ByteOf(rgb, k)
    {
      hide PixelOf, Colour;
      PixelChannel(mode, Target()[..], u, v, k);
      ColourChannel(rgb, k);
    }

    // --- the mouse -------------------------------------------------------------

    /** fb_cursor_show: showing or hiding the cursor repaints where it is. */
    method CursorShow(show: bool)
      requires Valid()
      modifies this`visible, lfb
      ensures Valid() && visible == show
      ensures Dirty() == iset p | p in old(Dirty()) && !InRect(curX - hotX, curY - hotY, curW, curH, p.0, p.1)
    {
      hide PixelOf, Blend, SpriteAt;
      ghost var before := Dirty();
      visible := show;
      assert forall p: (int, int) ::
        !InRect(curX - hotX, curY - hotY, curW, curH, p.0, p.1) ==> (p in Dirty() <==> p in before);
      FlipRect(curX - hotX, curY - hotY, curW, curH);
    }

    /** fb_cursor_move: the old and the new place are repainted; whatever the
        position, no pixel elsewhere becomes wrong and none in the two places
        stays wrong. */
    method CursorMove(x: int, y: int)
      requires Valid()
      modifies this`curX, this`curY, lfb
      ensures Valid() && curX == x && curY == y
      ensures Dirty() == iset p | p in old(Dirty())
        && !InRect(old(curX) - hotX, old(curY) - hotY, curW, curH, p.0, p.1)
        && !InRect(x - hotX, y - hotY, curW, curH, p.0, p.1)
    {
      hide PixelOf, Composed;
      var ox, oy := curX - hotX, curY - hotY;
      ghost var before := Dirty();
      ComposedOutside(Cursor());
      curX, curY := x, y;
      ComposedOutside(Cursor());
      assert forall p: (int, int) ::
        !InRect(ox, oy, curW, curH, p.0, p.1) && !InRect(x - hotX, y - hotY, curW, curH, p.0, p.1) ==>
        (p in Dirty() <==> p in before);
      hide Screen.Dirty, InRect;
      ghost var moved := Dirty();
      FlipRect(ox, oy, curW, curH);
      ghost var left := Dirty();
      FlipRect(x - hotX, y - hotY, curW, curH);
      BothCleaned(before, moved, left, ox, oy, x - hotX, y - hotY, curW, curH);
    }
  }
}
