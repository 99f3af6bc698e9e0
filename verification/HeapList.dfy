/** The kernel heap as a list of blocks: first fit, splitting and coalescing.
    Positions and sizes are counted in 4-byte words from HEAP_BASE; a block is
    a header of 3 words followed by its payload. */
module HeapList {
  import opened Bytes

  const HEAP_BASE := 0xD000_0000
  /** The words between HEAP_BASE and the end of the address space. */
  const HEAP_WORDS := 0x0C00_0000

  datatype Block = Block(at: nat, words: nat, free: bool) {
    /** The word after the payload. */
    function End(): nat { at + 3 + words }
  }

  /** The address of word `w`. */
  function Addr(w: nat): nat {
    HEAP_BASE + 4 * w
  }

  // --- the invariant --------------------------------------------------------

  /** The blocks cover words start..stop, in address order, without gap or overlap. */
  ghost predicate Tiles(bl: seq<Block>, start: nat, stop: nat) {
    && (if |bl| == 0 then start == stop else bl[0].at == start && bl[|bl| - 1].End() == stop)
    && forall i, j :: 0 <= i && j == i + 1 && j < |bl| ==> bl[j].at == bl[i].End()
  }

  ghost predicate NoAdjacentFree(bl: seq<Block>) {
    forall i, j :: 0 <= i && j == i + 1 && j < |bl| ==> !(bl[i].free && bl[j].free)
  }

  /** The last block has a payload, so that every payload starts before the end. */
  ghost predicate LastRoom(bl: seq<Block>) {
    |bl| > 0 ==> bl[|bl| - 1].words > 0
  }

  /** Later blocks start after earlier ones end. */
  lemma {:induction false} TilesApart(bl: seq<Block>, start: nat, stop: nat, i: nat, j: nat)
    requires Tiles(bl, start, stop) && i < j < |bl|
    ensures bl[i].End() <= bl[j].at
    decreases j - i
  {
    if i + 1 < j {
      TilesApart(bl, start, stop, i, j - 1);
    }
  }

  /** Every block lies within the tiled words. */
  lemma TilesWithin(bl: seq<Block>, start: nat, stop: nat, i: nat)
    requires Tiles(bl, start, stop) && i < |bl|
    ensures start <= bl[i].at && bl[i].End() <= stop
  {
    if i > 0 {
      TilesApart(bl, start, stop, 0, i);
    }
    if i < |bl| - 1 {
      TilesApart(bl, start, stop, i, |bl| - 1);
    }
  }

  lemma TilesConcat(a: seq<Block>, b: seq<Block>, start: nat, mid: nat, stop: nat)
    requires Tiles(a, start, mid) && Tiles(b, mid, stop)
    ensures Tiles(a + b, start, stop)
  {
  }

  // --- coalescing -----------------------------------------------------------

  function Merged(a: Block, b: Block): Block {
    Block(a.at, a.words + 3 + b.words, true)
  }

  /** Merging every pair of adjacent free blocks, left to right. */
  ghost function Coalesced(bl: seq<Block>): seq<Block>
    decreases |bl|
  {
    if |bl| < 2 then bl
    else if bl[0].free && bl[1].free then Coalesced([Merged(bl[0], bl[1])] + bl[2..])
    else [bl[0]] + Coalesced(bl[1..])
  }

  /** The blocks in use, in address order. */
  ghost function Live(bl: seq<Block>): seq<Block> {
    if |bl| == 0 then [] else (if bl[0].free then [] else [bl[0]]) + Live(bl[1..])
  }

  lemma {:induction false} LiveConcat(a: seq<Block>, b: seq<Block>)
    ensures Live(a + b) == Live(a) + Live(b)
    decreases |a|
  {
    if |a| == 0 {
      assert a + b == b;
    } else {
      LiveConcat(a[1..], b);
      assert (a + b)[1..] == a[1..] + b && (a + b)[0] == a[0];
    }
  }

  /** A block in use is listed, and only blocks in use are. */
  lemma {:induction false} LiveMember(bl: seq<Block>, b: Block)
    ensures b in Live(bl) <==> b in bl && !b.free
    decreases |bl|
  {
    if |bl| > 0 {
      LiveMember(bl[1..], b);
      assert bl == [bl[0]] + bl[1..];
    }
  }

  lemma MergeTiles(bl: seq<Block>, start: nat, stop: nat)
    requires |bl| >= 2 && Tiles(bl, start, stop)
    ensures Tiles([Merged(bl[0], bl[1])] + bl[2..], start, stop)
    ensures Tiles(bl[1..], bl[0].End(), stop)
  {
  }

  lemma ConsApart(x: Block, bl: seq<Block>)
    requires NoAdjacentFree(bl) && (|bl| > 0 ==> !(x.free && bl[0].free))
    ensures NoAdjacentFree([x] + bl)
  {
  }

  lemma ShortApart(bl: seq<Block>)
    requires |bl| < 2
    ensures NoAdjacentFree(bl)
  {
  }

  lemma LiveCons(x: Block, a: seq<Block>, b: seq<Block>)
    requires Live(a) == Live(b)
    ensures Live([x] + a) == Live([x] + b)
  {
    LiveConcat([x], a);
    LiveConcat([x], b);
  }

  lemma LivePair(x: Block, y: Block, post: seq<Block>)
    requires x.free && y.free
    ensures Live([Merged(x, y)] + post) == Live([x] + ([y] + post)) == Live(post)
  {
    assert ([x] + ([y] + post))[1..] == [y] + post && ([y] + post)[1..] == post;
    assert ([Merged(x, y)] + post)[1..] == post;
  }

  /** Coalescing keeps the tiling and the blocks in use, and leaves no two
      adjacent free blocks. */
  lemma {:induction false} CoalescedShape(bl: seq<Block>, start: nat, stop: nat)
    requires Tiles(bl, start, stop)
    ensures Tiles(Coalesced(bl), start, stop) && NoAdjacentFree(Coalesced(bl))
    ensures Live(Coalesced(bl)) == Live(bl)
    ensures |bl| > 0 ==> |Coalesced(bl)| > 0 && Coalesced(bl)[0].at == start
    ensures |bl| > 0 && !bl[0].free ==> Coalesced(bl)[0] == bl[0]
    ensures |bl| > 1 && !bl[0].free ==> Coalesced(bl) == [bl[0]] + Coalesced(bl[1..])
    decreases |bl|
  {
    hide NoAdjacentFree, Live;
    if |bl| < 2 {
      ShortApart(bl);
    } else {
      MergeTiles(bl, start, stop);
      assert bl == [bl[0]] + bl[1..] && bl[1..] == [bl[1]] + bl[2..];
      if bl[0].free && bl[1].free {
        CoalescedShape([Merged(bl[0], bl[1])] + bl[2..], start, stop);
        LivePair(bl[0], bl[1], bl[2..]);
      } else {
        CoalescedShape(bl[1..], bl[0].End(), stop);
        CoalescedHead(bl[1..]);
        var c := Coalesced(bl[1..]);
        TilesConcat([bl[0]], c, start, bl[0].End(), stop);
        ConsApart(bl[0], c);
        LiveCons(bl[0], c, bl[1..]);
      }
    }
  }

  /** The first block stays free or in use. */
  lemma {:induction false} CoalescedHead(bl: seq<Block>)
    requires |bl| > 0
    ensures |Coalesced(bl)| > 0 && Coalesced(bl)[0].free == bl[0].free
    decreases |bl|
  {
    if |bl| >= 2 && bl[0].free && bl[1].free {
      CoalescedHead([Merged(bl[0], bl[1])] + bl[2..]);
    }
  }

  /** The last block does not shrink. */
  lemma {:induction false} CoalescedLast(bl: seq<Block>)
    requires |bl| > 0
    ensures var c := Coalesced(bl);
      |c| > 0 && c[|c| - 1].words >= bl[|bl| - 1].words
    decreases |bl|
  {
    if |bl| >= 2 {
      if bl[0].free && bl[1].free {
        CoalescedLast([Merged(bl[0], bl[1])] + bl[2..]);
      } else {
        CoalescedLast(bl[1..]);
      }
    }
  }

  lemma {:induction false} CoalescedFixpoint(bl: seq<Block>)
    requires NoAdjacentFree(bl)
    ensures Coalesced(bl) == bl
    decreases |bl|
  {
    if |bl| >= 2 {
      CoalescedFixpoint(bl[1..]);
    }
  }

  /** Coalescing starts afresh after a prefix that ends in a block in use. */
  lemma {:induction false} CoalescedAfter(a: seq<Block>, b: seq<Block>)
    requires NoAdjacentFree(a) && (|a| > 0 && |b| > 0 ==> !a[|a| - 1].free)
    ensures Coalesced(a + b) == a + Coalesced(b)
    decreases |a|
  {
    if |a| == 0 {
      assert a + b == b;
    } else if |b| == 0 {
      assert a + b == a;
      CoalescedFixpoint(a);
    } else {
      var t := a[1..];
      CoalescedAfter(t, b);
      assert (a + b)[1..] == t + b && (a + b)[0] == a[0];
      assert |a| > 1 ==> (a + b)[1] == a[1];
      assert [a[0]] + (t + Coalesced(b)) == a + Coalesced(b);
    }
  }

  // --- allocation and release -----------------------------------------------

  /** The first free block of at least `want` words, or |bl|. */
  ghost function FirstFit(bl: seq<Block>, want: nat): (k: nat)
    ensures k <= |bl|
    ensures k < |bl| ==> bl[k].free && bl[k].words >= want
    ensures forall i :: 0 <= i < k ==> !(bl[i].free && bl[i].words >= want)
  {
    if |bl| == 0 || (bl[0].free && bl[0].words >= want) then 0 else 1 + FirstFit(bl[1..], want)
  }

  /** Block `k` given out for `want` words, split when the rest holds a header
      and the smallest payload. */
  ghost function Taken(bl: seq<Block>, k: nat, want: nat): seq<Block>
    requires k < |bl| && bl[k].words >= want
  {
    var b := bl[k];
    if b.words >= want + 5 then
      bl[..k] + [Block(b.at, want, false), Block(b.at + 3 + want, b.words - want - 3, true)] + bl[k + 1..]
    else
      bl[k := b.(free := false)]
  }

  /** Block `k` released. */
  ghost function Released(bl: seq<Block>, k: nat): seq<Block>
    requires k < |bl|
  {
    Coalesced(bl[k := bl[k].(free := true)])
  }

  lemma SplitAround(bl: seq<Block>, k: nat, start: nat, stop: nat)
    requires Tiles(bl, start, stop) && k < |bl|
    ensures Tiles(bl[..k], start, bl[k].at) && Tiles(bl[k + 1..], bl[k].End(), stop)
    ensures NoAdjacentFree(bl) ==> NoAdjacentFree(bl[..k]) && NoAdjacentFree(bl[k + 1..])
    ensures NoAdjacentFree(bl) && bl[k].free ==>
      (k > 0 ==> !bl[k - 1].free) && (k + 1 < |bl| ==> !bl[k + 1].free)
  {
  }

  /** The middle that replaces block `k`. */
  ghost function Given(b: Block, want: nat): seq<Block>
    requires b.words >= want
  {
    if b.words >= want + 5 then [Block(b.at, want, false), Block(b.at + 3 + want, b.words - want - 3, true)]
    else [b.(free := false)]
  }

  lemma TakenParts(bl: seq<Block>, k: nat, want: nat)
    requires k < |bl| && bl[k].words >= want
    ensures Taken(bl, k, want) == bl[..k] + Given(bl[k], want) + bl[k + 1..]
    ensures bl == bl[..k] + [bl[k]] + bl[k + 1..]
  {
  }

  lemma GivenLive(b: Block, want: nat)
    requires b.free && b.words >= want
    ensures Live(Given(b, want)) == [Given(b, want)[0]] && Live([b]) == []
  {
    var mid := Given(b, want);
    assert mid[1..] == [] || (mid[1..] == [mid[1]] && Live([mid[1]]) == []);
  }

  /** Giving out a block adds it to the blocks in use and leaves the others alone. */
  lemma TakenLive(bl: seq<Block>, k: nat, want: nat)
    requires k < |bl| && bl[k].free && bl[k].words >= want
    ensures var i := |Live(bl[..k])|;
      && i <= |Live(bl)|
      && Live(Taken(bl, k, want)) == Live(bl)[..i] + [Given(bl[k], want)[0]] + Live(bl)[i..]
  {
    var pre, mid, post := bl[..k], Given(bl[k], want), bl[k + 1..];
    TakenParts(bl, k, want);
    GivenLive(bl[k], want);
    LiveConcat(pre, mid);
    LiveConcat(pre + mid, post);
    LiveConcat(pre, [bl[k]]);
    LiveConcat(pre + [bl[k]], post);
  }

  /** Giving out a block keeps the tiling. */
  lemma TakenTiles(bl: seq<Block>, k: nat, want: nat, start: nat, stop: nat)
    requires Tiles(bl, start, stop)
    requires k < |bl| && bl[k].free && bl[k].words >= want
    ensures Tiles(Taken(bl, k, want), start, stop)
    ensures Taken(bl, k, want)[k] == Given(bl[k], want)[0]
    ensures LastRoom(bl) ==> LastRoom(Taken(bl, k, want))
  {
    var pre, mid, post := bl[..k], Given(bl[k], want), bl[k + 1..];
    TakenParts(bl, k, want);
    SplitAround(bl, k, start, stop);
    TilesConcat(pre, mid, start, bl[k].at, bl[k].End());
    TilesConcat(pre + mid, post, start, bl[k].End(), stop);
  }

  /** Giving out a block leaves no two adjacent free blocks. */
  lemma TakenApart(bl: seq<Block>, k: nat, want: nat)
    requires NoAdjacentFree(bl) && k < |bl| && bl[k].free && bl[k].words >= want
    ensures NoAdjacentFree(Taken(bl, k, want))
  {
  }

  lemma LiveAround(pre: seq<Block>, b: Block, post: seq<Block>)
    ensures Live(pre + [b] + post) == Live(pre) + (if b.free then [] else [b]) + Live(post)
  {
    LiveConcat(pre + [b], post);
    LiveConcat(pre, [b]);
    assert Live([b]) == if b.free then [] else [b];
  }

  lemma FreedTiles(bl: seq<Block>, k: nat, start: nat, stop: nat)
    requires Tiles(bl, start, stop) && k < |bl|
    ensures Tiles(bl[k := bl[k].(free := true)], start, stop)
  {
  }

  /** Releasing a block keeps the invariant and removes exactly that block from
      those in use. */
  lemma ReleasedShape(bl: seq<Block>, k: nat, start: nat, stop: nat)
    requires Tiles(bl, start, stop) && k < |bl| && !bl[k].free
    ensures Tiles(Released(bl, k), start, stop) && NoAdjacentFree(Released(bl, k))
    ensures var i := |Live(bl[..k])|;
      && i < |Live(bl)| && Live(bl)[i] == bl[k]
      && Live(Released(bl, k)) == Live(bl)[..i] + Live(bl)[i + 1..]
  {
    hide Tiles, NoAdjacentFree, Live, Coalesced;
    var freed := bl[k := bl[k].(free := true)];
    var pre, post := bl[..k], bl[k + 1..];
    FreedTiles(bl, k, start, stop);
    CoalescedShape(freed, start, stop);
    LiveAround(pre, freed[k], post);
    LiveAround(pre, bl[k], post);
    assert freed == pre + [freed[k]] + post && bl == pre + [bl[k]] + post;
    assert Live(bl) == Live(pre) + [bl[k]] + Live(post) && Live(freed) == Live(pre) + Live(post);
  }

  lemma ReleasedLast(bl: seq<Block>, k: nat)
    requires k < |bl| && LastRoom(bl)
    ensures LastRoom(Released(bl, k))
  {
    CoalescedLast(bl[k := bl[k].(free := true)]);
  }

  lemma MergeFirst(x: Block, y: Block, post: seq<Block>)
    requires x.free && y.free
    ensures Coalesced([x, y] + post) == Coalesced([Merged(x, y)] + post)
  {
    assert ([x, y] + post)[2..] == post;
  }

  /** Freeing a block that was just given out restores the previous list exactly. */
  lemma ReleaseUndoesTake(bl: seq<Block>, k: nat, want: nat, start: nat, stop: nat)
    requires Tiles(bl, start, stop) && NoAdjacentFree(bl)
    requires k < |bl| && bl[k].free && bl[k].words >= want
    ensures k < |Taken(bl, k, want)| && Released(Taken(bl, k, want), k) == bl
  {
    hide Coalesced, Tiles;
    var pre, b, post := bl[..k], bl[k], bl[k + 1..];
    SplitAround(bl, k, start, stop);
    var taken := Taken(bl, k, want);
    var freed := taken[k := taken[k].(free := true)];
    if b.words >= want + 5 {
      var x, y := Block(b.at, want, true), Block(b.at + 3 + want, b.words - want - 3, true);
      assert freed == pre + ([x, y] + post);
      CoalescedAfter(pre, [x, y] + post);
      MergeFirst(x, y, post);
    } else {
      assert freed == pre + ([b] + post);
      CoalescedAfter(pre, [b] + post);
    }
    CoalescedFixpoint(bl[k..]);
    assert [b] + post == bl[k..] && pre + bl[k..] == bl;
  }

  /** With nothing in use the list is a single free block over all the words. */
  lemma NothingLive(bl: seq<Block>, stop: nat)
    requires Tiles(bl, 0, stop) && NoAdjacentFree(bl) && Live(bl) == [] && stop > 0
    ensures stop >= 3 && bl == [Block(0, stop - 3, true)]
  {
    LiveMember(bl, bl[0]);
    assert bl[0] in bl;
    if |bl| > 1 {
      LiveMember(bl, bl[1]);
    }
  }

  /** Headers, free payloads and payloads in use account for all the words. */
  lemma {:induction false} WordsConserved(bl: seq<Block>, start: nat, stop: nat)
    requires Tiles(bl, start, stop)
    ensures start + 3 * |bl| + Words(bl, true) + Words(bl, false) == stop
    decreases |bl|
  {
    if |bl| > 0 {
      WordsConserved(bl[1..], bl[0].End(), stop);
    }
  }

  /** The payload words of the blocks with the given flag. */
  function Words(bl: seq<Block>, free: bool): nat {
    if |bl| == 0 then 0 else (if bl[0].free == free then bl[0].words else 0) + Words(bl[1..], free)
  }

  // --- the allocator --------------------------------------------------------

  /** The block list, the words mapped, the page frames the system can still
      give, and the 4 MB slots of the window that have a page table. */
  datatype Heap = Heap(blocks: seq<Block>, mapped: nat, frames: nat, tables: set<nat>)

  ghost predicate HeapOk(h: Heap) {
    && Tiles(h.blocks, 0, h.mapped) && NoAdjacentFree(h.blocks) && LastRoom(h.blocks)
    && h.mapped <= HEAP_WORDS
  }

  /** ALIGN8 on 32 bits: sizes above 2^32 - 8 wrap to 0. */
  function Align8(size: u32): u32 {
    (size + 7) % 0x1_0000_0000 / 8 * 8
  }

  /** The pages expand asks for, computed on 32 bits, at least 4. */
  function PagesFor(bytes: u32): nat {
    Max((bytes + 12 + 4096 - 1) % 0x1_0000_0000 / 4096, 4)
  }

  /** Pages mapped, and the frames and tables afterwards. */
  datatype Growth = Growth(pages: nat, frames: nat, tables: set<nat>)

  /** The loop of expand from page `page` of the window, for `want` pages: a
      page takes a frame, and the first page of a slot without a page table a
      second one, if there is one; if not, the table is put at address 0. */
  ghost function Grown(page: nat, frames: nat, tables: set<nat>, want: nat): Growth
    decreases want
  {
    if want == 0 || frames == 0 then Growth(0, frames, tables)
    else
      var slot := page / 1024;
      var left := if slot in tables || frames == 1 then frames - 1 else frames - 2;
      var rest := Grown(page + 1, left, tables + {slot}, want - 1);
      rest.(pages := rest.pages + 1)
  }

  ghost function GrownFor(h: Heap, bytes: u32): Growth {
    Grown(h.mapped / 1024, h.frames, h.tables, PagesFor(bytes))
  }

  /** expand: the pages that could be mapped, appended as a free block. */
  ghost function Expanded(h: Heap, bytes: u32): Heap {
    var g := GrownFor(h, bytes);
    if g.pages == 0 then h
    else
      var bl := h.blocks + [Block(h.mapped, 1024 * g.pages - 3, true)];
      Heap(Coalesced(bl), h.mapped + 1024 * g.pages, g.frames, g.tables)
  }

  /** The pages expand maps for this request end within the address space. */
  ghost predicate InWindow(h: Heap, bytes: u32) {
    h.mapped + 1024 * GrownFor(h, bytes).pages <= HEAP_WORDS
  }

  /** The first fitting block given out, with the address of its payload. */
  ghost function TakeFirst(h: Heap, bytes: u32): (Heap, nat)
    requires FirstFit(h.blocks, bytes / 4) < |h.blocks|
  {
    var k := FirstFit(h.blocks, bytes / 4);
    (h.(blocks := Taken(h.blocks, k, bytes / 4)), Addr(h.blocks[k].at + 3))
  }

  ghost predicate Fits(h: Heap, bytes: u32) {
    FirstFit(h.blocks, bytes / 4) < |h.blocks|
  }

  /** kmalloc: the heap afterwards and the payload address, or 0. */
  ghost function Malloc(h: Heap, size: u32): (Heap, nat) {
    var want := Align8(size);
    if size == 0 then (h, 0)
    else if Fits(h, want) then TakeFirst(h, want)
    else if h.frames == 0 then (h, 0)
    else
      var g := Expanded(h, want);
      if Fits(g, want) then TakeFirst(g, want) else (Expanded(g, want), 0)
  }

  /** Whatever growth the request causes ends within the address space. */
  ghost predicate StaysInWindow(h: Heap, size: u32) {
    var want := Align8(size);
    size == 0 || Fits(h, want)
    || (InWindow(h, want) && (Fits(Expanded(h, want), want) || InWindow(Expanded(h, want), want)))
  }

  /** kfree of the block at index `k`. */
  ghost function Free(h: Heap, k: nat): Heap
    requires k < |h.blocks|
  {
    h.(blocks := Released(h.blocks, k))
  }

  /** Every frame that left went behind a page or into a new table; only the
      last table of all can have done without one. */
  lemma {:induction false} GrownAccounts(page: nat, frames: nat, tables: set<nat>, want: nat)
    ensures var g := Grown(page, frames, tables, want);
      && tables <= g.tables && g.pages <= want && g.pages + g.frames <= frames
      && (g.pages == 0 <==> want == 0 || frames == 0) && (g.pages == 0 ==> g == Growth(0, frames, tables))
      && frames <= g.pages + |g.tables| - |tables| + g.frames <= if g.frames == 0 then frames + 1 else frames
    decreases want
  {
    if want > 0 && frames > 0 {
      var slot := page / 1024;
      var left := if slot in tables || frames == 1 then frames - 1 else frames - 2;
      GrownAccounts(page + 1, left, tables + {slot}, want - 1);
    }
  }

  /** The tables that are missing for the `n` pages from `page`. */
  ghost function Missing(page: nat, tables: set<nat>, n: nat): nat
    decreases n
  {
    if n == 0 then 0
    else (if page / 1024 in tables then 0 else 1) + Missing(page + 1, tables + {page / 1024}, n - 1)
  }

  /** All the pages are mapped exactly if there is a frame for each and one for
      every missing table but one that only the last page needs. */
  lemma {:induction false} GrownIff(page: nat, frames: nat, tables: set<nat>, want: nat)
    requires want > 0
    ensures Grown(page, frames, tables, want).pages == want <==> frames >= want + Missing(page, tables, want - 1)
    decreases want
  {
    if frames > 0 {
      var slot := page / 1024;
      var left := if slot in tables || frames == 1 then frames - 1 else frames - 2;
      if want > 1 {
        GrownIff(page + 1, left, tables + {slot}, want - 1);
      }
    }
  }

  lemma ExpandedOk(h: Heap, bytes: u32)
    requires HeapOk(h) && InWindow(h, bytes)
    ensures HeapOk(Expanded(h, bytes)) && Live(Expanded(h, bytes).blocks) == Live(h.blocks)
    ensures Expanded(h, bytes).mapped + 1024 * Expanded(h, bytes).frames <= h.mapped + 1024 * h.frames
  {
    GrownAccounts(h.mapped / 1024, h.frames, h.tables, PagesFor(bytes));
    var pages := GrownFor(h, bytes).pages;
    if pages > 0 {
      var b := Block(h.mapped, 1024 * pages - 3, true);
      TilesConcat(h.blocks, [b], 0, h.mapped, h.mapped + 1024 * pages);
      CoalescedShape(h.blocks + [b], 0, h.mapped + 1024 * pages);
      CoalescedLast(h.blocks + [b]);
      FreeTail(h.blocks, b);
    }
  }

  lemma FreeTail(bl: seq<Block>, b: Block)
    requires b.free
    ensures Live(bl + [b]) == Live(bl)
  {
    LiveConcat(bl, [b]);
    assert Live([b]) == [];
  }

  lemma TakeFirstOk(h: Heap, bytes: u32)
    requires HeapOk(h) && Fits(h, bytes)
    ensures HeapOk(TakeFirst(h, bytes).0)
    ensures Allotted(h, TakeFirst(h, bytes).0, bytes, TakeFirst(h, bytes).1)
  {
    var k := FirstFit(h.blocks, bytes / 4);
    TakenTiles(h.blocks, k, bytes / 4, 0, h.mapped);
    TakenApart(h.blocks, k, bytes / 4);
    TakenLive(h.blocks, k, bytes / 4);
    var i, b := |Live(h.blocks[..k])|, Given(h.blocks[k], bytes / 4)[0];
    assert Inserted(Live(h.blocks), Live(TakeFirst(h, bytes).0.blocks), i, b);
  }

  /** `after` is `before` with `b` inserted at place `i`. */
  ghost predicate Inserted(before: seq<Block>, after: seq<Block>, i: nat, b: Block) {
    i <= |before| && after == before[..i] + [b] + before[i..]
  }

  /** Exactly one block joined those in use; its payload is at `ptr` and has
      room for `bytes` bytes, at most 16 more. */
  ghost predicate Allotted(h: Heap, g: Heap, bytes: u32, ptr: nat) {
    exists i, b :: Inserted(Live(h.blocks), Live(g.blocks), i, b)
      && ptr == Addr(b.at + 3) && bytes / 4 <= b.words <= bytes / 4 + 4
  }

  /** kmalloc keeps the invariant; on success exactly one block joins those in
      use, on failure none does and only free space can have grown. */
  lemma MallocOk(h: Heap, size: u32)
    requires HeapOk(h) && StaysInWindow(h, size)
    ensures var (g, ptr) := Malloc(h, size);
      && HeapOk(g) && h.mapped <= g.mapped
      && (if ptr == 0 then Live(g.blocks) == Live(h.blocks) else Allotted(h, g, Align8(size), ptr))
  {
    var want := Align8(size);
    if size == 0 {
    } else if Fits(h, want) {
      TakeFirstOk(h, want);
    } else if h.frames > 0 {
      var e := Expanded(h, want);
      ExpandedOk(h, want);
      if Fits(e, want) {
        TakeFirstOk(e, want);
      } else {
        ExpandedOk(e, want);
      }
    }
  }

  lemma Align8Covers(size: u32)
    ensures if size <= 0xFFFF_FFF8 then size <= Align8(size) < size + 8 else Align8(size) == 0
    ensures Align8(size) % 8 == 0
  {
  }

  /** The payload handed out holds the requested size exactly when the size is
      at most 2^32 - 8, where rounding up does not wrap. */
  lemma PayloadSufficesIff(h: Heap, size: u32)
    requires HeapOk(h) && StaysInWindow(h, size) && Malloc(h, size).1 != 0
    ensures var (g, ptr) := Malloc(h, size);
      exists i, b :: Inserted(Live(h.blocks), Live(g.blocks), i, b) && ptr == Addr(b.at + 3)
        && (4 * b.words >= size <==> size <= 0xFFFF_FFF8)
  {
    hide Malloc, HeapOk, Inserted, Live, Align8, StaysInWindow;
    MallocOk(h, size);
    var (g, ptr) := Malloc(h, size);
    var i, b :| Inserted(Live(h.blocks), Live(g.blocks), i, b)
      && ptr == Addr(b.at + 3) && Align8(size) / 4 <= b.words <= Align8(size) / 4 + 4;
    GrantedIff(size, b.words);
  }

  lemma GrantedIff(size: u32, words: nat)
    requires Align8(size) / 4 <= words <= Align8(size) / 4 + 4
    ensures 4 * words >= size <==> size <= 0xFFFF_FFF8
  {
    Align8Covers(size);
    hide Align8;
  }

  /** A request of 2^32 - 7 bytes is granted with next to nothing behind it. */
  lemma WrappedRequest()
    ensures var h := Heap([Block(0, 4093, true)], 4096, 0, {0});
      && HeapOk(h) && Malloc(h, 0xFFFF_FFF9) == (h.(blocks := [Block(0, 0, false), Block(3, 4090, true)]), Addr(3))
  {
    var h := Heap([Block(0, 4093, true)], 4096, 0, {0});
    assert Align8(0xFFFF_FFF9) == 0;
    assert FirstFit(h.blocks, 0) == 0;
    assert Taken(h.blocks, 0, 0) == [Block(0, 0, false), Block(3, 4090, true)];
  }

  /** Payloads are 4-byte aligned; the very first one is not 8-byte aligned. */
  lemma PayloadAlignment(h: Heap, size: u32)
    requires HeapOk(h)
    ensures Malloc(h, size).1 % 4 == 0
    ensures Addr(3) % 8 == 4
  {
    hide Fits, Expanded, Align8, Tiles;
  }

  /** The words a block appended now would gain by merging with a free last block. */
  ghost function TailWords(bl: seq<Block>): nat {
    if |bl| > 0 && bl[|bl| - 1].free then bl[|bl| - 1].words + 3 else 0
  }

  lemma AppendedApart(bl: seq<Block>, b: Block)
    requires NoAdjacentFree(bl) && (|bl| > 0 ==> !bl[|bl| - 1].free)
    ensures NoAdjacentFree(bl + [b])
  {
  }

  lemma InitApart(bl: seq<Block>)
    requires NoAdjacentFree(bl) && |bl| > 0 && bl[|bl| - 1].free
    ensures NoAdjacentFree(bl[..|bl| - 1]) && (|bl| > 1 ==> !bl[|bl| - 2].free)
  {
    if |bl| > 1 {
      assert !bl[|bl| - 2].free;
    }
  }

  /** A free block appended to a coalesced list merges with a free last block,
      and nothing else happens. */
  lemma AppendedLast(bl: seq<Block>, b: Block)
    requires NoAdjacentFree(bl) && b.free
    ensures Coalesced(bl + [b]) ==
      if TailWords(bl) > 0 then bl[..|bl| - 1] + [Merged(bl[|bl| - 1], b)] else bl + [b]
  {
    hide Coalesced, NoAdjacentFree;
    if TailWords(bl) > 0 {
      var pre, last := bl[..|bl| - 1], bl[|bl| - 1];
      InitApart(bl);
      CoalescedAfter(pre, [last, b]);
      assert bl + [b] == pre + [last, b];
      MergedPair(last, b);
    } else {
      AppendedApart(bl, b);
      CoalescedFixpoint(bl + [b]);
    }
  }

  lemma MergedPair(x: Block, y: Block)
    requires x.free && y.free
    ensures Coalesced([x, y]) == [Merged(x, y)]
  {
    assert [Merged(x, y)] + [x, y][2..] == [Merged(x, y)];
  }

  /** A list has room exactly if its last block or one before it does. */
  lemma {:induction false} FitOfParts(pre: seq<Block>, b: Block, want: nat)
    ensures FirstFit(pre + [b], want) < |pre| + 1 <==> FirstFit(pre, want) < |pre| || (b.free && b.words >= want)
    decreases |pre|
  {
    if |pre| > 0 {
      FitOfParts(pre[1..], b, want);
      assert (pre + [b])[1..] == pre[1..] + [b];
    }
  }

  /** What growth makes room for: what fitted before, and what fits the pages
      mapped together with free space at the end of the list. */
  lemma ExpandedFitsIff(h: Heap, want: u32)
    requires HeapOk(h)
    ensures var pages := GrownFor(h, want).pages;
      Fits(Expanded(h, want), want) <==>
        Fits(h, want) || (pages > 0 && TailWords(h.blocks) + 1024 * pages >= want / 4 + 3)
  {
    hide Coalesced, FirstFit, Tiles, GrownFor, TailWords, NoAdjacentFree, LastRoom;
    var pages := GrownFor(h, want).pages;
    if pages > 0 {
      AppendedFitsIff(h.blocks, Block(h.mapped, 1024 * pages - 3, true), want / 4);
    }
  }

  lemma AppendedFitsIff(bl: seq<Block>, b: Block, want: nat)
    requires NoAdjacentFree(bl) && b.free
    ensures var out := Coalesced(bl + [b]);
      FirstFit(out, want) < |out| <==> FirstFit(bl, want) < |bl| || TailWords(bl) + b.words >= want
  {
    AppendedLast(bl, b);
    hide Coalesced, FirstFit, Tiles, NoAdjacentFree;
    if TailWords(bl) > 0 {
      var pre, last := bl[..|bl| - 1], bl[|bl| - 1];
      assert bl == pre + [last];
      FitOfParts(pre, last, want);
      FitOfParts(pre, Merged(last, b), want);
    } else {
      FitOfParts(bl, b, want);
    }
  }

  /** Exactly when a request is granted: some free block is large enough, or the
      pages the frames suffice for, tables included, are. */
  lemma MallocSucceedsIff(h: Heap, size: u32)
    requires HeapOk(h) && 0 < size
    ensures var want := Align8(size); var pages := GrownFor(h, want).pages;
      Malloc(h, size).1 != 0 <==>
        Fits(h, want) || (pages > 0 && TailWords(h.blocks) + 1024 * pages >= want / 4 + 3)
  {
    hide Coalesced, FirstFit, Tiles, Align8, Grown, Missing;
    ExpandedFitsIff(h, Align8(size));
    GrownAccounts(h.mapped / 1024, h.frames, h.tables, PagesFor(Align8(size)));
  }

  /** With a frame for each of its pages and for the tables they need a request
      succeeds, unless the page count itself wraps. */
  lemma MallocSucceeds(h: Heap, size: u32)
    requires HeapOk(h) && 0 < size && Align8(size) + 12 + 4096 - 1 < 0x1_0000_0000
    requires var pages := PagesFor(Align8(size));
      h.frames >= pages + Missing(h.mapped / 1024, h.tables, pages - 1)
    ensures Malloc(h, size).1 != 0
  {
    hide Coalesced, FirstFit, Tiles, Align8, Missing, Grown, Malloc, HeapOk;
    MallocSucceedsIff(h, size);
    GrownIff(h.mapped / 1024, h.frames, h.tables, PagesFor(Align8(size)));
  }

  /** A request grows the heap past the end of the address space or not, which
      shows in what it leaves mapped. */
  lemma StaysInWindowIff(h: Heap, size: u32)
    requires HeapOk(h)
    ensures StaysInWindow(h, size) <==> Malloc(h, size).0.mapped <= HEAP_WORDS
  {
    hide Coalesced, FirstFit, Tiles, Align8, Grown;
    var want := Align8(size);
    GrownAccounts(h.mapped / 1024, h.frames, h.tables, PagesFor(want));
  }

  /** The address expand maps its page `i` at, computed on 32 bits. */
  function PageAddress(mapped: nat, i: nat): u32 {
    (HEAP_BASE + mapped + 4096 * i) % 0x1_0000_0000
  }

  /** Growth stays in the window exactly if it ends at or before the end of the
      address space; otherwise one of its pages is mapped at address 0. */
  lemma WindowIff(mapped: nat, pages: nat)
    requires mapped % 4096 == 0 && HEAP_BASE + mapped <= 0x1_0000_0000
    ensures mapped + 4096 * pages <= 0x1_0000_0000 - HEAP_BASE <==>
      forall i :: 0 <= i < pages ==> PageAddress(mapped, i) >= HEAP_BASE
    ensures mapped + 4096 * pages > 0x1_0000_0000 - HEAP_BASE ==>
      exists i :: 0 <= i < pages && PageAddress(mapped, i) == 0
  {
    if mapped + 4096 * pages > 0x1_0000_0000 - HEAP_BASE {
      var i := (0x1_0000_0000 - HEAP_BASE - mapped) / 4096;
      assert 0 <= i < pages && PageAddress(mapped, i) == 0;
    }
  }

  lemma {:induction false} MissingBound(page: nat, tables: set<nat>, n: nat)
    ensures page / 1024 in tables ==> 1024 * Missing(page, tables, n) <= page % 1024 + n
    ensures page / 1024 !in tables ==> 1024 * Missing(page, tables, n) <= page % 1024 + n + 1024
    decreases n
  {
    if n > 0 {
      MissingBound(page + 1, tables + {page / 1024}, n - 1);
    }
  }

  /** 196609 pages behind 16 KB, with frames to spare. */
  lemma WrappingGrowth()
    ensures Grown(4, 0x4_0000, {0}, 196609).pages == 196609
  {
    MissingBound(4, {0}, 196608);
    GrownIff(4, 0x4_0000, {0}, 196609);
  }

  lemma FirstOfTwo(x: Block, y: Block, want: nat)
    requires !x.free && y.free && y.words >= want
    ensures FirstFit([x, y], want) == 1
  {
    assert [x, y][1..] == [y];
  }

  lemma SplitOfTwo(x: Block, y: Block, want: nat)
    requires !x.free && y.words >= want + 5
    ensures Live(Taken([x, y], 1, want)) == [x, Block(y.at, want, false)]
  {
    var given, rest := Block(y.at, want, false), Block(y.at + 3 + want, y.words - want - 3, true);
    assert Taken([x, y], 1, want) == [x, given, rest];
    assert [x, given, rest][1..] == [given, rest] && [given, rest][1..] == [rest] && Live([rest]) == [];
  }

  /** The failure: on a machine with 1 GB free, a heap of 16 KB is asked for
      768 MB. The growth goes past the end of the address space, page 196604 of
      it is mapped at address 0, and the block granted ends beyond it. */
  lemma WrappingRequest()
    ensures var h, size := Heap([Block(0, 4093, false)], 4096, 0x4_0000, {0}), 0x3000_0000;
      && HeapOk(h) && !StaysInWindow(h, size)
      && GrownFor(h, Align8(size)).pages == 196609 && PageAddress(4 * h.mapped, 196604) == 0
      && Malloc(h, size).1 == Addr(4096 + 3)
      && Live(Malloc(h, size).0.blocks) == [Block(0, 4093, false), Block(4096, 0x0C00_0000, false)]
      && Addr(4096 + 3 + 0x0C00_0000) > 0x1_0000_0000
  {
    hide Grown, Coalesced, FirstFit, Taken, Live;
    var used, b := Block(0, 4093, false), Block(4096, 1024 * 196609 - 3, true);
    var h, size := Heap([used], 4096, 0x4_0000, {0}), 0x3000_0000;
    assert Align8(size) == size && PagesFor(size) == 196609;
    WrappingGrowth();
    AppendedLast(h.blocks, b);
    assert [used] + [b] == [used, b];
    assert Expanded(h, size).blocks == [used, b];
    OnlyUsed(used, size / 4);
    FirstOfTwo(used, b, size / 4);
    SplitOfTwo(used, b, size / 4);
  }

  lemma OnlyUsed(x: Block, want: nat)
    requires !x.free
    ensures FirstFit([x], want) == 1
  {
  }

  /** Frames for the pages alone do not suffice: with four frames left an empty
      heap refuses 16000 bytes, for one frame becomes the page table. */
  lemma TableTakesFrame()
    ensures var h := Heap([], 0, 4, {});
      HeapOk(h) && PagesFor(Align8(16000)) == 4 && Malloc(h, 16000).1 == 0
  {
    var h := Heap([], 0, 4, {});
    assert Align8(16000) == 16000;
    assert Grown(3, 0, {0}, 1) == Growth(0, 0, {0});
    assert Grown(2, 1, {0}, 2) == Growth(1, 0, {0});
    assert Grown(1, 2, {0}, 3) == Growth(2, 0, {0});
    assert Grown(0, 4, {}, 4) == Growth(3, 0, {0});
    MallocSucceedsIff(h, 16000);
  }

  /** kfree of a pointer that kmalloc just returned without growing the heap
      restores the heap exactly. */
  lemma FreeUndoesMalloc(h: Heap, size: u32)
    requires HeapOk(h) && Malloc(h, size).1 != 0 && Malloc(h, size).0.mapped == h.mapped
    ensures var (g, ptr) := Malloc(h, size);
      exists k :: 0 <= k < |g.blocks| && Addr(g.blocks[k].at + 3) == ptr && !g.blocks[k].free && Free(g, k) == h
  {
    var want := Align8(size);
    var k := FirstFit(h.blocks, want / 4);
    assert Fits(h, want);
    ReleaseUndoesTake(h.blocks, k, want / 4, 0, h.mapped);
    TakenTiles(h.blocks, k, want / 4, 0, h.mapped);
    var g := Malloc(h, size).0;
    assert Addr(g.blocks[k].at + 3) == Malloc(h, size).1 && Free(g, k) == h;
  }

  // --- releasing everything -------------------------------------------------

  ghost function IndexOf(bl: seq<Block>, b: Block): (k: nat)
    requires b in bl
    ensures k < |bl| && bl[k] == b
  {
    if bl[0] == b then 0 else 1 + IndexOf(bl[1..], b)
  }

  /** kfree keeps the invariant and takes exactly one block out of use. */
  lemma FreeOk(h: Heap, k: nat)
    requires HeapOk(h) && k < |h.blocks| && !h.blocks[k].free
    ensures HeapOk(Free(h, k))
    ensures multiset(Live(Free(h, k).blocks)) == multiset(Live(h.blocks)) - multiset{h.blocks[k]}
    ensures h.blocks[k] in multiset(Live(h.blocks))
  {
    hide Live, Released, Tiles, NoAdjacentFree;
    var l, i := Live(h.blocks), |Live(h.blocks[..k])|;
    ReleasedShape(h.blocks, k, 0, h.mapped);
    ReleasedLast(h.blocks, k);
    assert l == l[..i] + [l[i]] + l[i + 1..];
  }

  /** The first block of an order of blocks in use can be freed, and the others
      are then still in use. */
  lemma FreeHead(h: Heap, order: seq<Block>)
    requires HeapOk(h) && |order| > 0 && multiset(order) <= multiset(Live(h.blocks))
    ensures order[0] in h.blocks && multiset(order) == multiset{order[0]} + multiset(order[1..])
    ensures var g := Free(h, IndexOf(h.blocks, order[0]));
      HeapOk(g) && multiset(Live(g.blocks)) == multiset(Live(h.blocks)) - multiset{order[0]}
  {
    hide HeapOk, Live, Released;
    var b := order[0];
    assert order == [b] + order[1..];
    assert multiset(order)[b] > 0 && multiset(Live(h.blocks))[b] > 0;
    LiveMember(h.blocks, b);
    FreeOk(h, IndexOf(h.blocks, b));
  }

  /** Freeing the blocks of `order`, one after the other. */
  ghost function FreeAll(h: Heap, order: seq<Block>): (g: Heap)
    requires HeapOk(h) && multiset(order) <= multiset(Live(h.blocks))
    ensures HeapOk(g) && g.mapped == h.mapped && multiset(Live(g.blocks)) == multiset(Live(h.blocks)) - multiset(order)
    decreases |order|
  {
    if |order| == 0 then h
    else
      FreeHead(h, order);
      FreeAll(Free(h, IndexOf(h.blocks, order[0])), order[1..])
  }

  lemma NothingIn(bl: seq<Block>)
    requires |multiset(bl)| == 0
    ensures bl == []
  {
  }

  /** Freeing all blocks in use, in any order, leaves one free block that spans
      the whole mapping but for its header. */
  lemma FreeAllLeavesOne(h: Heap, order: seq<Block>)
    requires HeapOk(h) && h.mapped > 0 && multiset(order) == multiset(Live(h.blocks))
    ensures h.mapped >= 3 && FreeAll(h, order).blocks == [Block(0, h.mapped - 3, true)]
  {
    hide Live, FreeAll, Tiles, NoAdjacentFree, LastRoom;
    var g := FreeAll(h, order);
    NothingIn(Live(g.blocks));
    NothingLive(g.blocks, g.mapped);
  }
}
