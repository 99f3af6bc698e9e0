/** Line and column geometry of a flat text buffer: positions 0..len and valid
    (line, column) pairs are two names for the same places. */
module TextGeometry {
  import opened Bytes

  const NEWLINE: byte := 10

  /** The line of position `pos`: the newlines before it. */
  ghost function Line(text: seq<byte>, pos: nat): nat
    requires pos <= |text|
  {
    if pos == 0 then 0 else Line(text, pos - 1) + if text[pos - 1] == NEWLINE then 1 else 0
  }

  /** The column of position `pos`: how far it is past the last newline. */
  ghost function Col(text: seq<byte>, pos: nat): (c: nat)
    requires pos <= |text|
    ensures c <= pos
  {
    if pos == 0 || text[pos - 1] == NEWLINE then 0 else Col(text, pos - 1) + 1
  }

  ghost function LineCount(text: seq<byte>): nat {
    Line(text, |text|) + 1
  }

  /** Where scanning from `from` has passed `n` newlines, or the end. */
  ghost function Skip(text: seq<byte>, from: nat, n: int): (i: nat)
    requires from <= |text|
    ensures from <= i <= |text|
    decreases |text| - from
  {
    if n <= 0 || from == |text| then from
    else Skip(text, from + 1, if text[from] == NEWLINE then n - 1 else n)
  }

  ghost function LineStart(text: seq<byte>, line: int): (i: nat)
    ensures i <= |text|
  {
    Skip(text, 0, line)
  }

  /** The bytes from `start` up to the next newline or the end. */
  ghost function LineLen(text: seq<byte>, start: nat): (n: nat)
    requires start <= |text|
    ensures start + n <= |text|
    decreases |text| - start
  {
    if start == |text| || text[start] == NEWLINE then 0 else 1 + LineLen(text, start + 1)
  }

  /** The length of line `line`. */
  ghost function Width(text: seq<byte>, line: int): nat {
    LineLen(text, LineStart(text, line))
  }

  /** A (line, column) pair that exists in the text. */
  ghost predicate Place(text: seq<byte>, line: int, col: int) {
    0 <= line < LineCount(text) && 0 <= col <= Width(text, line)
  }

  // --- the bijection --------------------------------------------------------

  lemma {:induction false} LineMonotone(text: seq<byte>, p: nat, q: nat)
    requires p <= q <= |text|
    ensures Line(text, p) <= Line(text, q)
    decreases q
  {
    if p < q {
      LineMonotone(text, p, q - 1);
    }
  }

  /** Skipping newlines lands right after the last one skipped. */
  lemma {:induction false} SkipLands(text: seq<byte>, from: nat, n: nat)
    requires from <= |text| && Line(text, from) + n <= Line(text, |text|)
    ensures var s := Skip(text, from, n);
      Line(text, s) == Line(text, from) + n && (n > 0 ==> s > 0 && text[s - 1] == NEWLINE)
    decreases |text| - from
  {
    if n > 0 && from < |text| {
      SkipLands(text, from + 1, if text[from] == NEWLINE then n - 1 else n);
    }
  }

  lemma LineStartLands(text: seq<byte>, line: nat)
    requires line < LineCount(text)
    ensures Line(text, LineStart(text, line)) == line && Col(text, LineStart(text, line)) == 0
  {
    SkipLands(text, 0, line);
  }

  /** Columns count up along a line. */
  lemma {:induction false} Along(text: seq<byte>, start: nat, c: nat)
    requires start <= |text| && c <= LineLen(text, start)
    ensures Line(text, start + c) == Line(text, start) && Col(text, start + c) == Col(text, start) + c
    decreases c
  {
    if c > 0 {
      Along(text, start, c - 1);
      InsideLine(text, start, c - 1);
    }
  }

  lemma {:induction false} InsideLine(text: seq<byte>, start: nat, k: nat)
    requires start <= |text| && k < LineLen(text, start)
    ensures text[start + k] != NEWLINE
    decreases k
  {
    if k > 0 {
      InsideLine(text, start + 1, k - 1);
    }
  }

  /** The start of the line `pos` is on. */
  lemma {:induction false} BackToStart(text: seq<byte>, pos: nat)
    requires pos <= |text|
    ensures var s := pos - Col(text, pos);
      Line(text, s) == Line(text, pos) && Col(text, s) == 0 && Col(text, pos) <= LineLen(text, s)
    decreases pos
  {
    if Col(text, pos) > 0 {
      BackToStart(text, pos - 1);
      LenAtLeast(text, pos - Col(text, pos), Col(text, pos));
    }
  }

  /** A stretch without newlines is within the line. */
  lemma {:induction false} LenAtLeast(text: seq<byte>, s: nat, n: nat)
    requires s + n <= |text| && n > 0 && text[s + n - 1] != NEWLINE && n - 1 <= LineLen(text, s)
    ensures n <= LineLen(text, s)
    decreases n
  {
    if n > 1 {
      LenAtLeast(text, s + 1, n - 1);
    }
  }

  /** A line has one start. */
  lemma {:induction false} OneStart(text: seq<byte>, p: nat, q: nat)
    requires p <= |text| && q <= |text| && Line(text, p) == Line(text, q)
    requires Col(text, p) == 0 && Col(text, q) == 0
    ensures p == q
    decreases p
  {
    if p < q {
      LineMonotone(text, p, q - 1);
    } else if q < p {
      OneStart(text, q, p);
    }
  }

  /** From offset to place and back. */
  lemma OffsetToPlace(text: seq<byte>, pos: nat)
    requires pos <= |text|
    ensures Place(text, Line(text, pos), Col(text, pos))
    ensures LineStart(text, Line(text, pos)) + Col(text, pos) == pos
  {
    BackToStart(text, pos);
    LineMonotone(text, pos, |text|);
    LineStartLands(text, Line(text, pos));
    OneStart(text, LineStart(text, Line(text, pos)), pos - Col(text, pos));
  }

  /** From place to offset and back. */
  lemma PlaceToOffset(text: seq<byte>, line: int, col: int)
    requires Place(text, line, col)
    ensures LineStart(text, line) + col <= |text|
    ensures Line(text, LineStart(text, line) + col) == line && Col(text, LineStart(text, line) + col) == col
  {
    LineStartLands(text, line);
    Along(text, LineStart(text, line), col);
  }

  // --- moving up and down ---------------------------------------------------

  /** The cursor stands as near to the preferred column as its line allows. */
  ghost predicate AtPreferred(text: seq<byte>, cursor: nat, prefcol: int)
    requires cursor <= |text|
  {
    0 <= prefcol && Col(text, cursor) == Min(prefcol, Width(text, Line(text, cursor)))
  }

  /** The position on `line` nearest the preferred column. */
  ghost function Nearest(text: seq<byte>, line: int, prefcol: int): (pos: nat)
    requires 0 <= prefcol
    ensures pos <= |text|
  {
    LineStart(text, line) + Min(prefcol, Width(text, line))
  }

  /** ed_vertical. */
  ghost function Vertical(text: seq<byte>, cursor: nat, prefcol: int, dir: int): (pos: nat)
    requires cursor <= |text| && 0 <= prefcol
    ensures pos <= |text|
  {
    var line := Line(text, cursor) + dir;
    if 0 <= line < LineCount(text) then Nearest(text, line, prefcol) else cursor
  }

  lemma NearestIsPreferred(text: seq<byte>, line: int, prefcol: int)
    requires 0 <= line < LineCount(text) && 0 <= prefcol
    ensures Line(text, Nearest(text, line, prefcol)) == line
    ensures AtPreferred(text, Nearest(text, line, prefcol), prefcol)
  {
    PlaceToOffset(text, line, Min(prefcol, Width(text, line)));
  }

  lemma PreferredIsNearest(text: seq<byte>, cursor: nat, prefcol: int)
    requires cursor <= |text| && AtPreferred(text, cursor, prefcol)
    ensures cursor == Nearest(text, Line(text, cursor), prefcol)
  {
    OffsetToPlace(text, cursor);
  }

  /** After a synchronisation the preferred column is the cursor's own. */
  lemma SyncIsPreferred(text: seq<byte>, cursor: nat)
    requires cursor <= |text|
    ensures AtPreferred(text, cursor, Col(text, cursor))
  {
    OffsetToPlace(text, cursor);
  }

  /** The cursor after a sequence of up (-1) and down (+1) keys. */
  ghost function Walk(text: seq<byte>, cursor: nat, prefcol: int, dirs: seq<int>): (pos: nat)
    requires cursor <= |text| && 0 <= prefcol
    ensures pos <= |text|
    decreases |dirs|
  {
    if |dirs| == 0 then cursor
    else Vertical(text, Walk(text, cursor, prefcol, dirs[..|dirs| - 1]), prefcol, dirs[|dirs| - 1])
  }

  /** The same walk on line numbers only: a step past either edge is ignored. */
  ghost function WalkLine(lines: nat, line: int, dirs: seq<int>): (l: int)
    requires 0 <= line < lines
    ensures 0 <= l < lines
    decreases |dirs|
  {
    if |dirs| == 0 then line
    else
      var l := WalkLine(lines, line, dirs[..|dirs| - 1]) + dirs[|dirs| - 1];
      if 0 <= l < lines then l else l - dirs[|dirs| - 1]
  }

  ghost function Sum(dirs: seq<int>): int {
    if |dirs| == 0 then 0 else Sum(dirs[..|dirs| - 1]) + dirs[|dirs| - 1]
  }

  /** No step of the walk is refused at the first or last line. */
  ghost predicate NeverAtEdge(lines: nat, line: int, dirs: seq<int>) {
    forall k :: 0 <= k <= |dirs| ==> 0 <= line + Sum(dirs[..k]) < lines
  }

  /** A walk never loses the preferred column: where it ends depends on the
      line reached alone. */
  lemma {:induction false} WalkEnds(text: seq<byte>, cursor: nat, prefcol: int, dirs: seq<int>)
    requires cursor <= |text| && AtPreferred(text, cursor, prefcol)
    ensures Line(text, cursor) < LineCount(text)
    ensures Walk(text, cursor, prefcol, dirs)
         == Nearest(text, WalkLine(LineCount(text), Line(text, cursor), dirs), prefcol)
    decreases |dirs|
  {
    LineMonotone(text, cursor, |text|);
    if |dirs| == 0 {
      PreferredIsNearest(text, cursor, prefcol);
    } else {
      WalkEnds(text, cursor, prefcol, dirs[..|dirs| - 1]);
      NearestIsPreferred(text, WalkLine(LineCount(text), Line(text, cursor), dirs[..|dirs| - 1]), prefcol);
    }
  }

  lemma {:induction false} WalkIsSum(lines: nat, line: int, dirs: seq<int>)
    requires 0 <= line < lines && NeverAtEdge(lines, line, dirs)
    ensures WalkLine(lines, line, dirs) == line + Sum(dirs)
    decreases |dirs|
  {
    if |dirs| > 0 {
      var before := dirs[..|dirs| - 1];
      assert forall k :: 0 <= k <= |before| ==> before[..k] == dirs[..k];
      WalkIsSum(lines, line, before);
      assert dirs[..|dirs|] == dirs;
    }
  }

  /** As many steps up as down, none of them refused, return the cursor exactly. */
  lemma WalkReturns(text: seq<byte>, cursor: nat, prefcol: int, dirs: seq<int>)
    requires cursor <= |text| && AtPreferred(text, cursor, prefcol)
    requires NeverAtEdge(LineCount(text), Line(text, cursor), dirs) && Sum(dirs) == 0
    ensures Walk(text, cursor, prefcol, dirs) == cursor
  {
    WalkEnds(text, cursor, prefcol, dirs);
    WalkIsSum(LineCount(text), Line(text, cursor), dirs);
    PreferredIsNearest(text, cursor, prefcol);
  }

  // --- the scanning loops ---------------------------------------------------

  /** ed_linecol. */
  method LineCol(text: seq<byte>, pos: nat) returns (line: nat, col: nat)
    requires pos <= |text|
    ensures line == Line(text, pos) && col == Col(text, pos)
  {
    line, col := 0, 0;
    for i := 0 to pos
      invariant line == Line(text, i) && col == Col(text, i)
    {
      if text[i] == NEWLINE {
        line, col := line + 1, 0;
      } else {
        col := col + 1;
      }
    }
  }

  /** ed_line_start. */
  method FindLineStart(text: seq<byte>, line: int) returns (i: nat)
    ensures i == LineStart(text, line)
  {
    var left := line;
    i := 0;
    while left > 0 && i < |text|
      invariant i <= |text| && Skip(text, i, left) == LineStart(text, line)
    {
      if text[i] == NEWLINE {
        left := left - 1;
      }
      i := i + 1;
    }
  }

  /** ed_line_len. */
  method FindLineLen(text: seq<byte>, start: nat) returns (n: nat)
    requires start <= |text|
    ensures n == LineLen(text, start)
  {
    n := 0;
    while start + n < |text| && text[start + n] != NEWLINE
      invariant start + n <= |text| && LineLen(text, start) == n + LineLen(text, start + n)
    {
      n := n + 1;
    }
  }

  /** ed_line_count. */
  method CountLines(text: seq<byte>) returns (n: nat)
    ensures n == LineCount(text)
  {
    n := 1;
    for i := 0 to |text|
      invariant n == Line(text, i) + 1
    {
      if text[i] == NEWLINE {
        n := n + 1;
      }
    }
  }
}
