/** Pixels in a linear framebuffer: rows of `pitch` bytes, 3 or 4 bytes a pixel. */
module Pixels {
  import opened Bytes

  /** The visible part of a pixel, in memory order. */
  datatype Rgb = Rgb(b: byte, g: byte, r: byte)

  /** The three colour bytes of 0xRRGGBB. */
  function Colour(rgb: u32): Rgb {
    Rgb(rgb % 0x100, rgb / 0x100 % 0x100, rgb / 0x1_0000 % 0x100)
  }

  /** A screen mode: what fb_init learns from the boot loader. */
  datatype Mode = Mode(width: nat, height: nat, pitch: nat, bypp: nat)

  predicate ValidMode(m: Mode) {
    (m.bypp == 3 || m.bypp == 4) && m.width * m.bypp <= m.pitch
  }

  /** fb_buffer_size. */
  function Size(m: Mode): nat {
    m.pitch * m.height
  }

  predicate OnScreen(m: Mode, x: int, y: int) {
    0 <= x < m.width && 0 <= y < m.height
  }

  function Off(m: Mode, x: int, y: int): int {
    y * m.pitch + x * m.bypp
  }

  lemma MulMono(a: int, b: int, c: nat)
    requires a <= b
    ensures a * c <= b * c
  {
  }

  /** A pixel lies inside its row, and its row inside the buffer. */
  lemma OffBounds(m: Mode, x: int, y: int)
    requires ValidMode(m) && OnScreen(m, x, y)
    ensures 0 <= y * m.pitch <= Off(m, x, y)
    ensures Off(m, x, y) + m.bypp <= (y + 1) * m.pitch <= Size(m)
  {
    MulMono(x + 1, m.width, m.bypp);
    MulMono(y + 1, m.height, m.pitch);
    MulMono(0, y, m.pitch);
    MulMono(0, x, m.bypp);
    assert (y + 1) * m.pitch == y * m.pitch + m.pitch;
    assert (x + 1) * m.bypp == x * m.bypp + m.bypp;
  }

  /** Different pixels share no byte. */
  lemma OffApart(m: Mode, x: int, y: int, u: int, v: int)
    requires ValidMode(m) && OnScreen(m, x, y) && OnScreen(m, u, v) && (x != u || y != v)
    ensures Off(m, x, y) + m.bypp <= Off(m, u, v) || Off(m, u, v) + m.bypp <= Off(m, x, y)
  {
    OffBounds(m, x, y);
    OffBounds(m, u, v);
    if y < v {
      MulMono(y + 1, v, m.pitch);
    } else if v < y {
      MulMono(v + 1, y, m.pitch);
    } else if x < u {
      MulMono(x + 1, u, m.bypp);
      assert (x + 1) * m.bypp == x * m.bypp + m.bypp;
    } else {
      MulMono(u + 1, x, m.bypp);
      assert (u + 1) * m.bypp == u * m.bypp + m.bypp;
    }
  }

  /** The bytes of `w` pixels from (x, row) on. */
  lemma RowBounds(m: Mode, x: int, row: int, w: nat)
    requires ValidMode(m) && OnScreen(m, x, row) && x + w <= m.width
    ensures 0 <= Off(m, x, row) && 0 <= w * m.bypp && Off(m, x, row) + w * m.bypp <= Size(m)
  {
    OffBounds(m, x, row);
    MulMono(0, w, m.bypp);
    if w > 0 {
      OffBounds(m, x + w - 1, row);
      assert (x + w - 1) * m.bypp + m.bypp == x * m.bypp + w * m.bypp;
    }
  }

  /** A pixel is wholly in that stretch or wholly outside it. */
  lemma RowPixels(m: Mode, x: int, row: int, w: nat, u: int, v: int)
    requires ValidMode(m) && OnScreen(m, x, row) && w > 0 && x + w <= m.width && OnScreen(m, u, v)
    ensures v == row && x <= u < x + w ==>
      Off(m, x, row) <= Off(m, u, v) && Off(m, u, v) + m.bypp <= Off(m, x, row) + w * m.bypp
    ensures !(v == row && x <= u < x + w) ==>
      Off(m, u, v) + m.bypp <= Off(m, x, row) || Off(m, x, row) + w * m.bypp <= Off(m, u, v)
  {
    var last := x + w - 1;
    assert Off(m, last, row) + m.bypp == Off(m, x, row) + w * m.bypp by {
      assert last * m.bypp + m.bypp == x * m.bypp + w * m.bypp;
    }
    if v == row {
      if x <= u {
        MulMono(x, u, m.bypp);
      }
      if u <= last {
        MulMono(u, last, m.bypp);
      }
      if u < x {
        OffApart(m, u, v, x, row);
        MulMono(u, x, m.bypp);
      }
      if last < u {
        OffApart(m, last, row, u, v);
        MulMono(last, u, m.bypp);
      }
    } else {
      OffBounds(m, u, v);
      OffBounds(m, x, row);
      OffBounds(m, last, row);
      if v < row {
        MulMono(v + 1, row, m.pitch);
      } else {
        MulMono(row + 1, v, m.pitch);
      }
    }
  }

  /** The pixel at (x, y) of a buffer. */
  ghost function PixelOf(m: Mode, buf: seq<byte>, x: int, y: int): Rgb
    requires ValidMode(m) && |buf| == Size(m) && OnScreen(m, x, y)
  {
    OffBounds(m, x, y);
    Rgb(buf[Off(m, x, y)], buf[Off(m, x, y) + 1], buf[Off(m, x, y) + 2])
  }

  /** One channel of the cursor blended over the background: the weighted mean of
      the two, rounded down. */
  function Mix(s: byte, bg: byte, a: byte): (c: int)
    ensures 0 <= c < 0x100
    ensures 255 * c <= s * a + bg * (255 - a) < 255 * c + 255
    ensures Min(s, bg) <= c <= Max(s, bg)
  {
    MixRange(s, bg, a);
    (s * a + bg * (255 - a)) / 255
  }

  lemma MixRange(s: byte, bg: byte, a: byte)
    ensures 255 * Min(s, bg) <= s * a + bg * (255 - a) <= 255 * Max(s, bg)
  {
    MulMono(Min(s, bg), s, a);
    MulMono(Min(s, bg), bg, 255 - a);
    MulMono(s, Max(s, bg), a);
    MulMono(bg, Max(s, bg), 255 - a);
    assert Min(s, bg) * a + Min(s, bg) * (255 - a) == 255 * Min(s, bg);
    assert Max(s, bg) * a + Max(s, bg) * (255 - a) == 255 * Max(s, bg);
  }

  /** Writes one pixel; no other pixel of the buffer changes. */
  method StorePixel(m: Mode, buf: array<byte>, x: int, y: int, c: Rgb)
    requires ValidMode(m) && buf.Length == Size(m) && OnScreen(m, x, y)
    modifies buf
    ensures forall u, v :: OnScreen(m, u, v) ==>
      PixelOf(m, buf[..], u, v) == if u == x && v == y then c else old(PixelOf(m, buf[..], u, v))
  {
    hide Off, Size;
    OffBounds(m, x, y);
    var off := Off(m, x, y);
    buf[off], buf[off + 1], buf[off + 2] := c.b, c.g, c.r;
    if m.bypp == 4 {
      buf[off + 3] := 0;
    }
    forall u, v | OnScreen(m, u, v)
      ensures PixelOf(m, buf[..], u, v) == if u == x && v == y then c else old(PixelOf(m, buf[..], u, v))
    {
      OffBounds(m, u, v);
      if u != x || v != y {
        OffApart(m, x, y, u, v);
      }
    }
  }

  /** memcpy of the same byte range from one buffer to another. */
  method CopyBytes(to: array<byte>, from: array<byte>, off: nat, n: nat)
    requires to.Length == from.Length && off + n <= to.Length && to != from
    modifies to
    ensures forall k :: 0 <= k < to.Length ==> to[k] == if off <= k < off + n then from[k] else old(to[k])
  {
    forall k | off <= k < off + n {
      to[k] := from[k];
    }
  }

  /** Copies `w` pixels of one row; no other pixel changes. */
  method CopyRow(m: Mode, to: array<byte>, from: array<byte>, x: int, row: int, w: nat)
    requires ValidMode(m) && to.Length == Size(m) && from.Length == Size(m) && to != from
    requires OnScreen(m, x, row) && w > 0 && x + w <= m.width
    modifies to
    ensures forall u, v :: OnScreen(m, u, v) ==>
      PixelOf(m, to[..], u, v) ==
        if v == row && x <= u < x + w then PixelOf(m, from[..], u, v) else old(PixelOf(m, to[..], u, v))
  {
    hide Off, Size;
    RowBounds(m, x, row, w);
    CopyBytes(to, from, Off(m, x, row), w * m.bypp);
    forall u, v | OnScreen(m, u, v)
      ensures PixelOf(m, to[..], u, v) ==
        if v == row && x <= u < x + w then PixelOf(m, from[..], u, v) else old(PixelOf(m, to[..], u, v))
    {
      OffBounds(m, u, v);
      RowPixels(m, x, row, w, u, v);
    }
  }
}
