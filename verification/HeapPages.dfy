/** The growth of the heap through the page tables: what the heap counts as
    frames and tables is what the mapper takes. */
module HeapPages {
  import opened Bytes
  import opened Pmm
  import opened Paging
  import opened HeapList
  import opened KernelHeap

  /** The directory slot of the first page of the heap window. */
  const FIRST_SLOT := 832

  /** Slot `s` of the window, counted from its start, has a page table. */
  ghost predicate HasTable(pd: seq<u32>, s: nat)
    requires |pd| == 1024
  {
    s < 1024 - FIRST_SLOT && Present(pd[FIRST_SLOT + s])
  }

  ghost function Tables(pd: seq<u32>): set<nat>
    requires |pd| == 1024
  {
    set s: nat | s < 1024 - FIRST_SLOT && HasTable(pd, s)
  }

  /** A directory in which one slot of the window was entered, or was there. */
  lemma TableAdded(was: seq<u32>, pd: seq<u32>, s: nat)
    requires |was| == |pd| == 1024 && s < 1024 - FIRST_SLOT
    requires pd == was[FIRST_SLOT + s := pd[FIRST_SLOT + s]] && Present(pd[FIRST_SLOT + s])
    ensures s in Tables(was) <==> Present(was[FIRST_SLOT + s])
    ensures Tables(pd) == if s in Tables(was) then Tables(was) else Tables(was) + {s}
  {
  }

  /** Page `i` of the growth: its address, its page number and its slot. */
  lemma WindowPage(mapped: nat, i: nat)
    requires mapped % 4096 == 0 && HEAP_BASE + mapped + 4096 * i < 0x1_0000_0000
    ensures var virt := HEAP_BASE + mapped + 4096 * i;
      && virt / 4096 == HEAP_PAGE + mapped / 4096 + i < PAGES
      && virt / 0x40_0000 == FIRST_SLOT + (mapped / 4096 + i) / 1024 < 1024
  {
    var p := mapped / 4096 + i;
    assert HEAP_BASE + mapped + 4096 * i == 4096 * (HEAP_PAGE + p);
    assert 4096 * (HEAP_PAGE + p) / 0x40_0000 == (HEAP_PAGE + p) / 1024;
  }

  /** The pages of a growth are behind frames that were free, each behind one
      page, none of them a page table. */
  ghost predicate Backed(frames: seq<int>, before: iset<int>, now: iset<int>, pd: seq<u32>) {
    && (forall k :: 0 <= k < |frames| ==> frames[k] in before && frames[k] !in now && !IsTable(pd, frames[k]))
    && forall j, k :: 0 <= j < k < |frames| ==> frames[j] != frames[k]
  }

  ghost function FreeFrames(pmm: FrameAllocator): iset<int>
    reads pmm, pmm.bitmap
  {
    iset f | pmm.IsFree(f)
  }

  lemma BackedNext(frames: seq<int>, before: iset<int>, was: iset<int>, now: iset<int>, old_: seq<u32>, pd: seq<u32>,
                   f: int)
    requires Backed(frames, before, was, old_) && now <= was <= before && f in was && f !in now && !IsTable(pd, f)
    requires forall g :: IsTable(pd, g) ==> g == 0 || IsTable(old_, g) || g in was
    requires 0 !in before
    ensures Backed(frames + [f], before, now, pd)
  {
  }

  /** expand's loop on the page tables: frames and page tables are taken exactly
      as the heap counts them, the new pages lie behind frames of their own, and
      every other page of the address space stays where it was. */
  method GrowWindow(m: Mapper, mapped: u32, pages: nat) returns (grown: nat, ghost frames: seq<int>)
    requires m.Valid() && m.enabled && m.Reachable() && m.BelowHeap() && mapped % 4096 == 0
    requires IsTable(m.pageDir[..], 0) ==> m.pmm.freeFrames == 0
    requires HEAP_BASE + mapped
      + 4096 * Grown(mapped / 4096, m.pmm.freeFrames, Tables(m.pageDir[..]), pages).pages <= 0x1_0000_0000
    modifies m.pmm`freeFrames, m.pmm`searchHint, m.pmm.bitmap, m.pageDir, m.phys
    ensures m.Valid() && m.Reachable() && m.BelowHeap()
    ensures IsTable(m.pageDir[..], 0) ==> m.pmm.freeFrames == 0
    ensures var g := Grown(mapped / 4096, old(m.pmm.freeFrames), old(Tables(m.pageDir[..])), pages);
      && grown == 4096 * g.pages && m.pmm.freeFrames == g.frames && Tables(m.pageDir[..]) == g.tables
      && |frames| == g.pages && HEAP_PAGE + mapped / 4096 + |frames| <= PAGES
    ensures Backed(frames, old(FreeFrames(m.pmm)), FreeFrames(m.pmm), m.pageDir[..])
    ensures var first := HEAP_PAGE + mapped / 4096;
      forall v :: 0 <= v < PAGES ==>
        m.Frame(v) == if first <= v < first + |frames| then frames[v - first] else old(m.Frame(v))
  {
    hide Maps, IsTable, TablesApart, Used, CountFree, Grown, Remaining, Tables, Mapper.Reachable, Mapper.BelowHeap;
    hide Mapper.Frame, FrameAllocator.IsFree;
    ghost var g := Grown(mapped / 4096, m.pmm.freeFrames, Tables(m.pageDir[..]), pages);
    ghost var before, first := FreeFrames(m.pmm), HEAP_PAGE + mapped / 4096;
    GrowthStarts(mapped / 4096, m.pmm.freeFrames, Tables(m.pageDir[..]), pages);
    var i := 0;
    grown, frames := 0, [];
    while i < pages && m.pmm.freeFrames > 0
      invariant 0 <= i <= pages && grown == 4096 * i && |frames| == i
      invariant m.Valid() && m.Reachable() && m.BelowHeap() && m.pageDir.Length == 1024
      invariant IsTable(m.pageDir[..], 0) ==> m.pmm.freeFrames == 0
      invariant Remaining(g, mapped / 4096 + i, m.pmm.freeFrames, Tables(m.pageDir[..]), pages - i, i)
      invariant FreeFrames(m.pmm) <= before && Backed(frames, before, FreeFrames(m.pmm), m.pageDir[..])
      invariant forall v :: 0 <= v < PAGES ==>
        m.Frame(v) == if first <= v < first + i then frames[v - first] else old(m.Frame(v))
    {
      GrownStep(g, mapped / 4096 + i, m.pmm.freeFrames, Tables(m.pageDir[..]), pages - i, i);
      PagesLeft(g, mapped / 4096 + i, m.pmm.freeFrames, Tables(m.pageDir[..]), pages - i, i);
      WindowPage(mapped, i);
      ghost var was, free := m.pageDir[..], FreeFrames(m.pmm);
      var frame := m.MapHeapPage(HEAP_BASE + mapped + grown);
      TableAdded(was, m.pageDir[..], (mapped / 4096 + i) / 1024);
      BackedNext(frames, before, free, FreeFrames(m.pmm), was, m.pageDir[..], frame / 4096);
      frames := frames + [frame / 4096];
      grown, i := grown + 4096, i + 1;
    }
    GrowthDone(g, mapped / 4096 + i, m.pmm.freeFrames, Tables(m.pageDir[..]), pages - i, i);
  }

  /** Past the end of the address space the loop would map its pages from address
      0 on: a store for page 0 moves that page off frame 0. */
  lemma WrappedPageMoves(pd: seq<u32>, phys: seq<u32>, frame: nat)
    requires TablesApart(pd) && |phys| == PHYS_WORDS && Present(pd[0]) && 0 < frame < PAGES
    requires Maps(pd, phys, 0) == 0
    ensures Maps(pd, phys[pd[0] / 4096 * 1024 := EntryFor(frame)], 0) == frame
  {
    StoreEntry(pd, phys, 0, 0, frame);
  }

  lemma PagesLeft(g: Growth, page: nat, frames: nat, tables: set<nat>, want: nat, i: nat)
    requires want > 0 && frames > 0 && Remaining(g, page, frames, tables, want, i)
    ensures i < g.pages
  {
  }
}
