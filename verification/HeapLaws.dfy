/** kmalloc and expand in bytes and pages: which block a request gets, when it is
    split, how far the heap grows, and what a refused request leaves. */
module HeapLaws {
  import opened Bytes
  import opened HeapList

  /** The bytes a request takes: the next multiple of 8. */
  lemma RequestRounded(size: u32)
    requires size <= 0xFFFF_FFF8
    ensures Align8(size) % 8 == 0 && size <= Align8(size) < size + 8
  {
  }

  /** The pages asked for: the fewest with room for the request and a header, but
      no fewer than four; a request too close to 2^32 asks for four. */
  lemma PagesNeeded(bytes: u32)
    ensures PagesFor(bytes) >= 4
    ensures bytes <= 0xFFFF_EFF4 ==>
      4096 * PagesFor(bytes) >= bytes + 12 && (PagesFor(bytes) == 4 || 4096 * (PagesFor(bytes) - 1) < bytes + 12)
    ensures bytes > 0xFFFF_EFF4 ==> PagesFor(bytes) == 4
  {
  }

  /** In addresses: a request stays in the window if what is mapped afterwards ends
      at or before 2^32. */
  lemma StaysInAddresses(h: Heap, size: u32)
    requires HeapOk(h)
    ensures StaysInWindow(h, size) <==> 0xD000_0000 + 4 * Malloc(h, size).0.mapped <= 0x1_0000_0000
  {
    hide HeapOk, Malloc, StaysInWindow;
    StaysInWindowIff(h, size);
  }

  /** Block `k` is the lowest free one of at least `bytes` bytes. */
  ghost predicate LowestThatFits(bl: seq<Block>, k: nat, bytes: nat) {
    && k < |bl| && bl[k].free && 4 * bl[k].words >= bytes
    && forall i :: 0 <= i < k && bl[i].free ==> 4 * bl[i].words < bytes
  }

  lemma LowestIsFirst(bl: seq<Block>, k: nat, bytes: u32)
    requires bytes % 4 == 0 && LowestThatFits(bl, k, bytes)
    ensures FirstFit(bl, bytes / 4) == k
  {
    hide FirstFit;
    assert forall i :: 0 <= i < k ==> !(bl[i].free && bl[i].words >= bytes / 4);
    assert bl[k].free && bl[k].words >= bytes / 4;
  }

  /** A request gets the lowest free block that is large enough. If 20 bytes are
      left over they become a free block, behind a header of 12; otherwise the
      request gets the whole block. */
  lemma ServedFromLowest(h: Heap, size: u32, k: nat)
    requires HeapOk(h) && 0 < size && LowestThatFits(h.blocks, k, Align8(size))
    ensures var (g, ptr) := Malloc(h, size); var b := h.blocks[k];
      && ptr == 0xD000_0000 + 4 * b.at + 12
      && g.mapped == h.mapped && g.frames == h.frames && g.tables == h.tables
      && k < |g.blocks| && g.blocks[..k] == h.blocks[..k] && g.blocks[k].at == b.at && !g.blocks[k].free
      && if 4 * b.words >= Align8(size) + 20 then
           && |g.blocks| == |h.blocks| + 1 && 4 * g.blocks[k].words == Align8(size)
           && g.blocks[k + 1].free && 4 * g.blocks[k + 1].words == 4 * b.words - Align8(size) - 12
           && g.blocks[k + 1].at == b.at + 3 + g.blocks[k].words && g.blocks[k + 2..] == h.blocks[k + 1..]
         else g.blocks == h.blocks[k := b.(free := false)]
  {
    RoundedWords(size);
    LowestIsFirst(h.blocks, k, Align8(size));
    hide HeapOk, Align8, FirstFit, Expanded;
  }

  lemma RoundedWords(size: u32)
    ensures Align8(size) % 8 == 0 && Align8(size) / 4 * 4 == Align8(size)
  {
    var q := (size + 7) % 0x1_0000_0000 / 8;
    assert Align8(size) == 8 * q;
    Eighths(8 * q, q);
  }

  lemma Eighths(x: nat, q: nat)
    requires x == 8 * q
    ensures x % 8 == 0 && x / 4 * 4 == x
  {
    assert x / 4 == 2 * q;
  }

  /** The loop stops early only when no frame is left. */
  lemma {:induction false} StopsWithoutFrames(page: nat, frames: nat, tables: set<nat>, want: nat)
    ensures var g := Grown(page, frames, tables, want); g.pages < want ==> g.frames == 0
    decreases want
  {
    if want > 0 && frames > 0 {
      var slot := page / 1024;
      var left := if slot in tables || frames == 1 then frames - 1 else frames - 2;
      StopsWithoutFrames(page + 1, left, tables + {slot}, want - 1);
      GrownAccounts(page + 1, left, tables + {slot}, want - 1);
    }
  }

  /** A request is refused only after the last frame has gone into the heap, as
      long as its page count does not wrap. */
  lemma RefusedTakesAll(h: Heap, size: u32)
    requires HeapOk(h) && 0 < size && Align8(size) <= 0xFFFF_EFF4 && Malloc(h, size).1 == 0
    ensures Malloc(h, size).0.frames == 0
  {
    var want := Align8(size);
    RoundedWords(size);
    PagesNeeded(want);
    MallocSucceedsIff(h, size);
    StopsWithoutFrames(h.mapped / 1024, h.frames, h.tables, PagesFor(want));
    GrownAccounts(h.mapped / 1024, h.frames, h.tables, PagesFor(want));
    NoFramesNoGrowth(Expanded(h, want), want);
    hide HeapOk, Align8, FirstFit, Coalesced, Grown, PagesFor;
  }

  lemma NoFramesNoGrowth(h: Heap, bytes: u32)
    ensures h.frames == 0 ==> Expanded(h, bytes) == h
  {
  }

  /** One whose page count wraps is refused with the heap grown twice by the
      minimum: here eight pages and a page table are taken. */
  lemma WrappedRefusal()
    ensures Malloc(Heap([], 0, 20, {}), 0xFFFF_F000) ==
      (Heap([Block(0, 8189, true)], 8192, 11, {0}), 0)
  {
    hide Align8, PagesFor, FirstFit, Coalesced, Grown, Expanded, Malloc;
    var want, a, b := 0xFFFF_F000, Block(0, 4093, true), Block(0, 8189, true);
    WrappedPages(want);
    FirstGrowth(20, want);
    SecondGrowth(15, want);
    NoFit(a, want / 4);
    RefusedTwice(Heap([], 0, 20, {}), want, Heap([a], 4096, 15, {0}), Heap([b], 8192, 11, {0}));
  }

  lemma WrappedPages(w: u32)
    requires w == 0xFFFF_F000
    ensures Align8(w) == w && PagesFor(w) == 4
  {
    hide Align8, PagesFor;
    PagesNeeded(w);
    WholePages(w, 0xF_FFFF);
  }

  /** Whole pages are not rounded. */
  lemma WholePages(w: u32, n: nat)
    requires w == 4096 * n
    ensures Align8(w) == w
  {
    var q := 512 * n;
    assert (w + 7) / 8 == q;
  }

  /** A request that fits neither at first nor after growing grows the heap once more. */
  lemma RefusedTwice(h: Heap, size: u32, g: Heap, f: Heap)
    requires 0 < size == Align8(size) && h.frames > 0
    requires !Fits(h, size) && Expanded(h, size) == g && !Fits(g, size) && Expanded(g, size) == f
    ensures Malloc(h, size) == (f, 0)
  {
    hide Align8, Fits, Expanded;
  }

  lemma NoFit(a: Block, want: nat)
    requires a.words < want
    ensures FirstFit([], want) == 0 && FirstFit([a], want) == 1
  {
    assert [a][1..] == [];
  }

  lemma FirstGrowth(frames: nat, bytes: u32)
    requires frames >= 5 && PagesFor(bytes) == 4
    ensures Expanded(Heap([], 0, frames, {}), bytes) == Heap([Block(0, 4093, true)], 4096, frames - 5, {0})
  {
    FourPages(0, frames, {});
    hide Grown, PagesFor;
    assert Coalesced([Block(0, 4093, true)]) == [Block(0, 4093, true)];
  }

  lemma SecondGrowth(frames: nat, bytes: u32)
    requires frames >= 5 && PagesFor(bytes) == 4
    ensures Expanded(Heap([Block(0, 4093, true)], 4096, frames, {0}), bytes)
         == Heap([Block(0, 8189, true)], 8192, frames - 4, {0})
  {
    var a, b := Block(0, 4093, true), Block(4096, 4093, true);
    FourPages(4, frames, {0});
    TwoFree(a, b);
    hide Grown, PagesFor, Coalesced;
    assert [a] + [b] == [a, b];
  }

  lemma FourPages(page: nat, frames: nat, tables: set<nat>)
    requires page <= 1020 && frames >= 5 && (tables == {} || tables == {0})
    ensures Grown(page, frames, tables, 4) == Growth(4, if tables == {} then frames - 5 else frames - 4, {0})
  {
    var left := if tables == {} then frames - 2 else frames - 1;
    assert tables + {0} == {0} && {0} + {0} == {0};
    assert Grown(page + 4, left - 3, {0}, 0) == Growth(0, left - 3, {0});
    assert Grown(page + 3, left - 2, {0}, 1) == Growth(1, left - 3, {0});
    assert Grown(page + 2, left - 1, {0}, 2) == Growth(2, left - 3, {0});
    assert Grown(page + 1, left, {0}, 3) == Growth(3, left - 3, {0});
  }

  lemma TwoFree(a: Block, b: Block)
    requires a.free && b.free
    ensures Coalesced([a, b]) == [Block(a.at, a.words + 3 + b.words, true)]
  {
    assert [a, b][2..] == [];
    assert Coalesced([Merged(a, b)]) == [Merged(a, b)];
  }

  /** heap_init on a machine with five frames or more: one free block in 16 KB. */
  lemma FirstExpansion(frames: nat)
    requires frames >= 5
    ensures Expanded(Heap([], 0, frames, {}), 1) == Heap([Block(0, 4093, true)], 4096, frames - 5, {0})
  {
    FirstGrowth(frames, 1);
  }
}
