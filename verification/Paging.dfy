/** Two-level page tables ("32-Bit Paging", Intel SDM Volume 3A, section 4.3):
    a page directory and page tables taken from the frame allocator, written
    through the very mapping they define, refining a flat map of pages. */
module Paging {
  import opened Bytes
  import opened Pmm

  /** Pages of the 32-bit address space, and 4-byte words of physical memory. */
  const PAGES := 0x10_0000
  const PHYS_WORDS := 0x4000_0000
  const HEAP_PAGE := 0xD_0000

  /** PTE_PRESENT, bit 0 of an entry. */
  predicate Present(entry: u32) {
    entry % 2 == 1
  }

  /** A present, writable entry for a frame. */
  function EntryFor(frame: nat): u32
    requires frame < PAGES
  {
    4096 * frame + 3
  }

  // --- the flat map ---------------------------------------------------------

  /** The page-table entry that governs page `v`, 0 when its table is missing. */
  ghost function Entry(pd: seq<u32>, phys: seq<u32>, v: nat): u32
    requires |pd| == 1024 && |phys| == PHYS_WORDS && v < PAGES
  {
    if Present(pd[v / 1024]) then phys[pd[v / 1024] / 4096 * 1024 + v % 1024] else 0
  }

  /** The flat map the tables stand for: the frame of page `v`, or -1. */
  ghost function Maps(pd: seq<u32>, phys: seq<u32>, v: nat): int
    requires |pd| == 1024 && |phys| == PHYS_WORDS && v < PAGES
  {
    var e := Entry(pd, phys, v);
    if Present(e) then e / 4096 else -1
  }

  /** Directory entries are empty or name a writable table, in a frame of its
      own or at address 0, where paging_map puts it when no frame is left. */
  ghost predicate TablesApart(pd: seq<u32>) {
    && |pd| == 1024
    && (forall i :: 0 <= i < 1024 ==> pd[i] == 0 || pd[i] == 3 || (pd[i] % 4096 == 3 && pd[i] / 4096 >= LOW_FRAMES))
    && forall i, j :: 0 <= i < j < 1024 && pd[i] > 3 && pd[j] > 3 ==> pd[i] / 4096 != pd[j] / 4096
  }

  /** At most one table is at address 0. */
  ghost predicate Alone(pd: seq<u32>) {
    forall i, j :: 0 <= i < j < |pd| ==> pd[i] != 3 || pd[j] != 3
  }

  /** Page `v` is governed by the table of slot `i`. */
  ghost predicate Shares(pd: seq<u32>, i: nat, v: nat)
    requires |pd| == 1024 && i < 1024 && v < PAGES
  {
    v / 1024 == i || (pd[i] == 3 && pd[v / 1024] == 3)
  }

  /** Frame `f` holds a page table. */
  ghost predicate IsTable(pd: seq<u32>, f: int) {
    exists i :: 0 <= i < |pd| && Present(pd[i]) && pd[i] / 4096 == f
  }

  /** A store outside the page tables leaves the map alone. */
  lemma StoreElsewhere(pd: seq<u32>, phys: seq<u32>, k: nat, x: u32)
    requires |pd| == 1024 && |phys| == PHYS_WORDS && k < PHYS_WORDS && !IsTable(pd, k / 1024)
    ensures forall v :: 0 <= v < PAGES ==> Maps(pd, phys[k := x], v) == Maps(pd, phys, v)
  {
    forall v | 0 <= v < PAGES ensures Entry(pd, phys[k := x], v) == Entry(pd, phys, v) {
      var t := pd[v / 1024] / 4096;
      assert (t * 1024 + v % 1024) / 1024 == t;
    }
  }

  /** A store into a page table changes the one page it governs, in every slot
      that uses the table. */
  lemma StoreEntry(pd: seq<u32>, phys: seq<u32>, i: nat, e: nat, frame: nat)
    requires TablesApart(pd) && |phys| == PHYS_WORDS && i < 1024 && e < 1024 && Present(pd[i]) && frame < PAGES
    ensures var after := phys[pd[i] / 4096 * 1024 + e := EntryFor(frame)];
      forall v :: 0 <= v < PAGES ==>
        Maps(pd, after, v) == if Shares(pd, i, v) && v % 1024 == e then frame else Maps(pd, phys, v)
  {
    var after := phys[pd[i] / 4096 * 1024 + e := EntryFor(frame)];
    forall v | 0 <= v < PAGES
      ensures Maps(pd, after, v) == if Shares(pd, i, v) && v % 1024 == e then frame else Maps(pd, phys, v)
    {
      StoreEntryAt(pd, phys, after, i, e, frame, v);
    }
  }

  lemma StoreEntryAt(pd: seq<u32>, phys: seq<u32>, after: seq<u32>, i: nat, e: nat, frame: nat, v: nat)
    requires |pd| == 1024 && |phys| == PHYS_WORDS && i < 1024 && e < 1024 && frame < PAGES && v < PAGES
    requires Present(pd[i]) && after == phys[pd[i] / 4096 * 1024 + e := EntryFor(frame)]
    requires !Shares(pd, i, v) && Present(pd[v / 1024]) ==> pd[v / 1024] / 4096 != pd[i] / 4096
    ensures Maps(pd, after, v) == if Shares(pd, i, v) && v % 1024 == e then frame else Maps(pd, phys, v)
  {
    hide EntryFor, Present;
    EntryNamesFrame(frame);
    var t, u := pd[i] / 4096, pd[v / 1024] / 4096;
    if !Shares(pd, i, v) {
      if Present(pd[v / 1024]) {
        SlotsApart(u, v % 1024, t, e);
        assert after[u * 1024 + v % 1024] == phys[u * 1024 + v % 1024];
      }
    } else {
      assert pd[v / 1024] == pd[i];
      assert after[t * 1024 + v % 1024] == if v % 1024 == e then EntryFor(frame) else phys[t * 1024 + v % 1024];
    }
  }

  /** Slots of different frames are different words. */
  lemma SlotsApart(t: nat, a: nat, u: nat, b: nat)
    requires a < 1024 && b < 1024 && t != u
    ensures t * 1024 + a != u * 1024 + b
  {
  }

  /** Entering a cleared table into an empty directory slot leaves the map alone. */
  lemma EnterTable(pd: seq<u32>, after: seq<u32>, phys: seq<u32>, i: nat, f: nat)
    requires TablesApart(pd) && |phys| == PHYS_WORDS && i < 1024 && pd[i] == 0
    requires LOW_FRAMES <= f < MAX_FRAMES && !IsTable(pd, f) && after == pd[i := EntryFor(f)]
    requires forall k :: 1024 * f <= k < 1024 * f + 1024 ==> phys[k] == 0
    ensures TablesApart(after)
    ensures forall v :: 0 <= v < PAGES ==> Maps(after, phys, v) == Maps(pd, phys, v)
    ensures forall g :: IsTable(after, g) <==> IsTable(pd, g) || g == f
  {
    TablesStayApart(pd, i, f);
    hide TablesApart;
    TableEntered(pd, i, f);
    hide IsTable;
    forall v | 0 <= v < PAGES ensures Maps(after, phys, v) == Maps(pd, phys, v) {
      if v / 1024 == i {
        assert phys[1024 * f + v % 1024] == 0;
      }
    }
  }

  /** What clearing address 0 and entering it as the table of an empty slot
      does: the slot is entered empty, and every slot that had been given
      address 0 before loses its pages. */
  lemma BorrowTable(pd: seq<u32>, after: seq<u32>, phys: seq<u32>, cleared: seq<u32>, i: nat)
    requires TablesApart(pd) && |phys| == |cleared| == PHYS_WORDS && i < 1024 && pd[i] == 0
    requires forall k :: 0 <= k < PHYS_WORDS ==> cleared[k] == if k / 1024 == 0 then 0 else phys[k]
    requires after == pd[i := 3]
    ensures TablesApart(after)
    ensures forall v :: 0 <= v < PAGES ==>
      Maps(after, cleared, v) == if Shares(after, i, v) then -1 else Maps(pd, phys, v)
    ensures forall g :: IsTable(after, g) <==> IsTable(pd, g) || g == 0
  {
    TableEntered(pd, i, 0);
    hide IsTable;
    forall v | 0 <= v < PAGES
      ensures Maps(after, cleared, v) == if Shares(after, i, v) then -1 else Maps(pd, phys, v)
    {
      BorrowTableAt(pd, phys, cleared, i, v);
    }
  }

  lemma BorrowTableAt(pd: seq<u32>, phys: seq<u32>, cleared: seq<u32>, i: nat, v: nat)
    requires |pd| == 1024 && |phys| == |cleared| == PHYS_WORDS && i < 1024 && pd[i] == 0 && v < PAGES
    requires pd[v / 1024] == 0 || pd[v / 1024] == 3 || pd[v / 1024] / 4096 >= LOW_FRAMES
    requires forall k :: 0 <= k < PHYS_WORDS ==> cleared[k] == if k / 1024 == 0 then 0 else phys[k]
    ensures Maps(pd[i := 3], cleared, v) == if Shares(pd[i := 3], i, v) then -1 else Maps(pd, phys, v)
  {
    var t := pd[i := 3][v / 1024] / 4096;
    assert (t * 1024 + v % 1024) / 1024 == t;
  }

  /** Two slots with their tables at address 0 translate alike, so a page of
      one that is mapped at all spoils an identity mapping of both. */
  lemma SharedTable(pd: seq<u32>, phys: seq<u32>, i: nat, j: nat, e: nat)
    requires |pd| == 1024 && |phys| == PHYS_WORDS && i < 1024 && j < 1024 && i != j && e < 1024
    requires pd[i] == 3 && pd[j] == 3
    ensures Maps(pd, phys, 1024 * i + e) == Maps(pd, phys, 1024 * j + e)
    ensures Present(phys[e]) ==>
      var u, v := 1024 * i + e, 1024 * j + e;
      Maps(pd, phys, u) >= 0 && !(Maps(pd, phys, u) == u && Maps(pd, phys, v) == v)
  {
    assert (1024 * i + e) / 1024 == i && (1024 * i + e) % 1024 == e;
    assert (1024 * j + e) / 1024 == j && (1024 * j + e) % 1024 == e;
  }

  lemma TablesStayApart(pd: seq<u32>, i: nat, f: nat)
    requires TablesApart(pd) && i < 1024 && pd[i] == 0 && LOW_FRAMES <= f < MAX_FRAMES && !IsTable(pd, f)
    ensures |pd| == 1024 && TablesApart(pd[i := EntryFor(f)])
  {
    hide EntryFor;
    EntryNamesFrame(f);
    forall j | 0 <= j < 1024 && pd[j] > 3 ensures pd[j] / 4096 != f {
      assert Present(pd[j]);
    }
  }

  lemma EntryNamesFrame(f: nat)
    requires f < PAGES
    ensures Present(EntryFor(f)) && EntryFor(f) / 4096 == f && EntryFor(f) % 4096 == 3
  {
  }

  lemma EmptyIsAbsent(entry: u32)
    ensures entry == 0 ==> !Present(entry)
  {
  }

  lemma TableEntered(pd: seq<u32>, i: nat, f: nat)
    requires |pd| == 1024 && i < 1024 && pd[i] == 0 && f < MAX_FRAMES
    ensures forall g :: IsTable(pd[i := EntryFor(f)], g) <==> IsTable(pd, g) || g == f
  {
    EntryNamesFrame(f);
    hide EntryFor, Present;
    EmptyIsAbsent(pd[i]);
    var after := pd[i := EntryFor(f)];
    forall g ensures IsTable(after, g) <==> IsTable(pd, g) || g == f {
      if IsTable(pd, g) {
        var j :| 0 <= j < |pd| && Present(pd[j]) && pd[j] / 4096 == g;
        assert after[j] == pd[j];
      }
      if IsTable(after, g) {
        var j :| 0 <= j < |after| && Present(after[j]) && after[j] / 4096 == g;
        assert j != i ==> after[j] == pd[j];
      }
      assert Present(after[i]) && after[i] / 4096 == f;
    }
  }

  lemma AbsentIsEmpty(pd: seq<u32>, i: nat)
    requires TablesApart(pd) && i < 1024 && !Present(pd[i])
    ensures |pd| == 1024 && pd[i] == 0
  {
    hide TablesApart;
    EntryKinds(pd, i);
    PresentKind(pd[i]);
  }

  lemma PresentKind(entry: u32)
    ensures entry % 4096 == 3 ==> Present(entry)
    ensures Present(3) && !Present(0)
  {
  }

  lemma EntryKinds(pd: seq<u32>, i: nat)
    requires TablesApart(pd) && i < 1024
    ensures |pd| == 1024 && (pd[i] == 0 || pd[i] == 3 || (pd[i] % 4096 == 3 && pd[i] / 4096 >= LOW_FRAMES))
  {
  }

  lemma EmptyOrPresent(pd: seq<u32>, i: nat)
    requires TablesApart(pd) && i < 1024
    ensures |pd| == 1024 && (pd[i] == 0 <==> !Present(pd[i]))
  {
    hide TablesApart;
    EntryKinds(pd, i);
    PresentKind(pd[i]);
  }

  lemma TableAddress(pd: seq<u32>, i: nat)
    requires TablesApart(pd) && i < 1024 && Present(pd[i])
    ensures |pd| == 1024 && (if pd[i] == 3 then pd[i] / 4096 == 0 else pd[i] / 4096 >= LOW_FRAMES)
  {
  }

  lemma TableFacts(pd: seq<u32>, i: nat)
    requires TablesApart(pd) && i < 1024 && Present(pd[i])
    ensures |pd| == 1024 && IsTable(pd, pd[i] / 4096) && pd[i] / 4096 < PAGES
  {
    assert pd[i] / 4096 == pd[i] / 4096;
  }

  /** Splitting a page number into its directory and table indices. */
  lemma PageSplit(virt: u32)
    ensures virt / 4096 == 1024 * (virt / 0x40_0000) + virt / 4096 % 1024
    ensures virt / 0x40_0000 < 1024 && virt / 4096 < PAGES
  {
  }

  lemma SlotAddress(t: nat, e: nat)
    requires t < PAGES && e < 1024
    ensures (4096 * t + 4 * e) / 4096 == t && (4096 * t + 4 * e) % 4096 / 4 == e && (t * 1024 + e) / 1024 == t
  {
  }

  lemma NamesTable(pt: nat)
    requires pt % 4096 == 0 && pt + 3 < 0x1_0000_0000
    ensures Present(pt + 3) && (pt + 3) / 4096 * 4096 == pt
  {
  }

  /** Page `v` has a byte in start..end. */
  predicate Covers(start: int, end: int, v: int) {
    start / 4096 <= v && 4096 * v < end
  }

  /** paging_init maps page `v` because of this region. */
  predicate Touches(r: Region, v: int) {
    Considered(r) && Covers(r.base, RegionEnd(r), v)
  }

  ghost predicate Touched(regions: seq<Region>, v: int) {
    exists k :: 0 <= k < |regions| && Touches(regions[k], v)
  }

  lemma NoneTouched(regions: seq<Region>)
    ensures forall v :: !Touched(regions[..0], v)
  {
  }

  lemma TouchedNext(regions: seq<Region>, k: nat)
    requires k < |regions|
    ensures forall v :: Touched(regions[..k + 1], v) <==>
      Touched(regions[..k], v) || (Considered(regions[k]) && Covers(regions[k].base, RegionEnd(regions[k]), v))
  {
    forall v ensures Touched(regions[..k + 1], v) <==> Touched(regions[..k], v) || Touches(regions[k], v) {
      var a, b := regions[..k], regions[..k + 1];
      if Touched(a, v) {
        var j :| 0 <= j < |a| && Touches(a[j], v);
        assert b[j] == a[j];
      }
      if Touched(b, v) {
        var j :| 0 <= j < |b| && Touches(b[j], v);
        assert j < k ==> a[j] == b[j];
      }
      if Touches(regions[k], v) {
        assert b[k] == regions[k];
      }
    }
  }

  lemma OpensTouches(r: Region, f: nat)
    requires Opens(r, f) && IsRegion(r) && r.base <= MEMORY_CAP
    ensures Touches(r, f)
  {
  }

  lemma OpensConsidered(r: Region, f: nat)
    requires Opens(r, f)
    ensures Considered(r)
  {
  }

  /** A frame pmm_init opens is a page paging_init maps. */
  lemma OpenedIsTouched(regions: seq<Region>, f: nat)
    requires Opened(regions, f)
    requires forall k :: 0 <= k < |regions| && Considered(regions[k]) ==>
      IsRegion(regions[k]) && regions[k].base <= MEMORY_CAP
    ensures Touched(regions, f)
  {
    hide Opens, Touches, IsRegion, Considered;
    var k :| 0 <= k < |regions| && Opens(regions[k], f);
    OpensConsidered(regions[k], f);
    OpensTouches(regions[k], f);
    assert Touches(regions[k], f);
  }

  /** Clearing a frame that is no page table leaves the map alone. */
  lemma ClearedElsewhere(pd: seq<u32>, phys: seq<u32>, after: seq<u32>, f: nat)
    requires |pd| == 1024 && |phys| == |after| == PHYS_WORDS && !IsTable(pd, f)
    requires forall k :: 0 <= k < PHYS_WORDS && k / 1024 != f ==> after[k] == phys[k]
    ensures forall v :: 0 <= v < PAGES ==> Maps(pd, after, v) == Maps(pd, phys, v)
  {
    forall v | 0 <= v < PAGES ensures Entry(pd, after, v) == Entry(pd, phys, v) {
      var t := pd[v / 1024] / 4096;
      assert (t * 1024 + v % 1024) / 1024 == t;
    }
  }

  lemma NoBorrowing(pd: seq<u32>)
    requires |pd| == 1024 && !IsTable(pd, 0)
    ensures forall i :: 0 <= i < 1024 ==> pd[i] != 3
  {
    forall i | 0 <= i < 1024 ensures pd[i] != 3 {
      EntryNamesFrame(0);
    }
  }

  /** With at most one table at address 0 a slot's table is its own. */
  lemma AloneShares(pd: seq<u32>, i: nat, v: nat)
    requires |pd| == 1024 && i < 1024 && v < PAGES && Alone(pd)
    ensures Shares(pd, i, v) <==> v / 1024 == i
  {
  }

  /** Borrowing address 0 for an empty slot, with no other slot using it,
      moves no page that is mapped. */
  lemma BorrowSpares(pd: seq<u32>, phys: seq<u32>, i: nat, v: nat)
    requires |pd| == 1024 && |phys| == PHYS_WORDS && i < 1024 && v < PAGES
    requires !IsTable(pd, 0) && pd[i] == 0 && Maps(pd, phys, v) >= 0
    ensures !Shares(pd[i := 3], i, v)
  {
    NoBorrowing(pd);
  }

  lemma OneBorrowed(was: seq<u32>, pd: seq<u32>, i: nat)
    requires |was| == |pd| == 1024 && i < 1024 && !IsTable(was, 0) && pd == was[i := pd[i]]
    ensures Alone(pd)
  {
    NoBorrowing(was);
  }

  lemma StaysAtItself(pd: seq<u32>, i: nat, e: nat, target: nat, f: nat)
    requires |pd| == 1024 && i < 1024 && f < PAGES && Alone(pd) && (1024 * i + e != target ==> f != 1024 * i + e)
    ensures Shares(pd, i, f) && f % 1024 == e ==> target == f
  {
    AloneShares(pd, i, f);
    assert f == 1024 * (f / 1024) + f % 1024;
  }

  /** Where page `v`, at `before` so far, is after paging_map has mapped the page
      of `virt` to `target` and taken the directory from `was` to `pd`. */
  ghost function Moved(was: seq<u32>, pd: seq<u32>, virt: u32, target: u32, v: nat, before: int): int
    requires |was| == |pd| == 1024 && v < PAGES
  {
    var i := virt / 0x40_0000;
    if Shares(pd, i, v) && v % 1024 == virt / 4096 % 1024 then target / 4096
    else if was[i] == 0 && pd[i] == 3 && Shares(pd, i, v) then -1
    else before
  }

  /** With at most one table at address 0 only the page itself moves. */
  lemma MovedAlone(was: seq<u32>, pd: seq<u32>, phys: seq<u32>, virt: u32, target: u32, v: nat)
    requires |was| == |pd| == 1024 && |phys| == PHYS_WORDS && v < PAGES && Alone(pd)
    ensures Moved(was, pd, virt, target, v, Maps(was, phys, v)) ==
      if v == virt / 4096 then target / 4096 else Maps(was, phys, v)
  {
    PageSplit(virt);
    AloneShares(pd, virt / 0x40_0000, v);
  }

  lemma ZeroEntered(was: seq<u32>, pd: seq<u32>, i: nat)
    requires TablesApart(was) && TablesApart(pd) && i < 1024 && pd == was[i := pd[i]] && !IsTable(was, 0)
    ensures was[i] != 3 && (IsTable(pd, 0) ==> pd[i] == 3)
  {
    NoBorrowing(was);
    assert forall j :: 0 <= j < 1024 && j != i ==> was[j] == pd[j];
    TableAtZero(pd);
  }

  // --- counting page tables -------------------------------------------------

  ghost function Slots(pd: seq<u32>): set<int> {
    set i | 0 <= i < |pd| && Present(pd[i])
  }

  /** The slots with their table at address 0. */
  ghost function AtZero(pd: seq<u32>): set<int> {
    set i | 0 <= i < |pd| && pd[i] == 3
  }

  lemma TableAtZero(pd: seq<u32>)
    requires TablesApart(pd)
    ensures IsTable(pd, 0) ==> AtZero(pd) != {}
  {
    if IsTable(pd, 0) {
      var i :| 0 <= i < |pd| && Present(pd[i]) && pd[i] / 4096 == 0;
      assert i in AtZero(pd);
    }
  }

  lemma AloneIff(pd: seq<u32>)
    ensures Alone(pd) <==> |AtZero(pd)| <= 1
  {
    var z := AtZero(pd);
    if z != {} {
      var i :| i in z;
      assert |z - {i}| == |z| - 1;
      if z - {i} == {} {
        assert z == {i};
        assert forall j :: 0 <= j < |pd| && pd[j] == 3 ==> j in z;
      } else {
        var j :| j in z - {i};
        assert pd[i] == 3 && pd[j] == 3;
        assert i < j || j < i;
      }
    } else {
      assert forall j :: 0 <= j < |pd| && pd[j] == 3 ==> j in z;
    }
  }

  /** A slot entered takes a frame or is given address 0. */
  lemma SlotEntered(was: seq<u32>, pd: seq<u32>, i: nat, before: nat, after: nat)
    requires |was| == |pd| == 1024 && i < 1024 && pd == was[i := pd[i]] && Present(pd[i])
    requires (was[i] == 0 <==> !Present(was[i])) && (Present(was[i]) ==> pd[i] == was[i])
    requires !Present(was[i]) ==> (pd[i] == 3 <==> before == 0)
    requires after == before - if Present(was[i]) || before == 0 then 0 else 1
    ensures |Slots(pd)| - |AtZero(pd)| + after == |Slots(was)| - |AtZero(was)| + before
    ensures AtZero(pd) != {} ==> AtZero(was) != {} || before == 0
    ensures pd[i] != 3 ==> AtZero(pd) == AtZero(was)
    ensures Alone(pd) ==> Alone(was)
  {
    if Present(was[i]) {
      assert pd == was;
    } else {
      assert Slots(pd) == Slots(was) + {i} && i !in Slots(was) && i !in AtZero(was);
      assert AtZero(pd) == if pd[i] == 3 then AtZero(was) + {i} else AtZero(was);
    }
    AloneIff(pd);
    AloneIff(was);
  }

  // --- what paging_init maps ------------------------------------------------

  /** The loop over start..end maps a page of slot `i`. */
  predicate CoversSlot(start: int, end: int, i: int) {
    start / 4096 * 4096 < end && start / 0x40_0000 <= i && 0x40_0000 * i < end
  }

  lemma NoSlotYet(start: u32)
    ensures forall i :: !CoversSlot(start, start / 4096 * 4096, i)
  {
  }

  lemma SlotNext(start: u32, p: u32)
    requires p % 4096 == 0 && start / 4096 * 4096 <= p
    ensures forall i :: CoversSlot(start, p + 4096, i) <==> CoversSlot(start, p, i) || i == p / 0x40_0000
  {
    forall i ensures CoversSlot(start, p + 4096, i) <==> CoversSlot(start, p, i) || i == p / 0x40_0000 {
      SlotNextAt(start, p, i);
    }
  }

  lemma SlotNextAt(start: u32, p: u32, i: int)
    requires p % 4096 == 0 && start / 4096 * 4096 <= p
    ensures CoversSlot(start, p + 4096, i) <==> CoversSlot(start, p, i) || i == p / 0x40_0000
  {
    var b, n := start / 4096, p / 4096;
    assert p == 4096 * n && b <= n;
    assert start / 0x40_0000 == b / 1024 && p / 0x40_0000 == n / 1024;
    assert 0x40_0000 * i < p + 4096 <==> 1024 * i < n + 1;
    assert 0x40_0000 * i < p <==> 1024 * i < n;
  }

  lemma SlotsDone(start: u32, end: u32, p: u32)
    requires p % 4096 == 0 && start / 4096 * 4096 <= p && end <= p
    requires start / 4096 < p / 4096 ==> 4096 * (p / 4096 - 1) < end
    ensures forall i :: CoversSlot(start, p, i) <==> CoversSlot(start, end, i)
  {
    forall i ensures CoversSlot(start, p, i) <==> CoversSlot(start, end, i) {
      if start / 4096 < p / 4096 {
        SlotBelow(p / 4096, end, i);
      }
    }
  }

  /** A slot that begins below the end of a page begins below any address in it. */
  lemma SlotBelow(n: nat, end: nat, i: int)
    requires 4096 * (n - 1) < end <= 4096 * n
    ensures 0x40_0000 * i < 4096 * n <==> 0x40_0000 * i < end
  {
    assert 0x40_0000 * i == 4096 * (1024 * i);
  }

  lemma FirstMegabyte()
    ensures forall i :: 0 <= i ==> (CoversSlot(0, 0x10_0000, i) <==> i == 0)
    ensures forall v :: 0 <= v ==> (Covers(0, 0x10_0000, v) <==> v < LOW_FRAMES)
  {
  }

  ghost predicate SlotTouched(regions: seq<Region>, i: int) {
    exists k :: 0 <= k < |regions| && Considered(regions[k]) && CoversSlot(regions[k].base, RegionEnd(regions[k]), i)
  }

  lemma NoSlotTouched(regions: seq<Region>)
    ensures forall i :: !SlotTouched(regions[..0], i)
  {
  }

  lemma SlotTouchedNext(regions: seq<Region>, k: nat)
    requires k < |regions|
    ensures forall i :: SlotTouched(regions[..k + 1], i) <==>
      SlotTouched(regions[..k], i) || (Considered(regions[k]) && CoversSlot(regions[k].base, RegionEnd(regions[k]), i))
  {
    hide CoversSlot, Considered, RegionEnd;
    var a, b := regions[..k], regions[..k + 1];
    assert forall j :: 0 <= j < k ==> a[j] == b[j];
    assert b[k] == regions[k];
  }

  /** Page `v` is one paging_init is to map. */
  ghost predicate Wanted(regions: seq<Region>, lfb: u32, lfbSize: nat, v: int) {
    v < LOW_FRAMES || Touched(regions, v) || (lfb != 0 && Covers(lfb, lfb + lfbSize, v))
  }

  lemma WantedIs(regions: seq<Region>, lfb: u32, lfbSize: nat)
    ensures forall v :: Wanted(regions, lfb, lfbSize, v) <==>
      v < LOW_FRAMES || Touched(regions, v) || (lfb != 0 && Covers(lfb, lfb + lfbSize, v))
  {
  }

  /** Page `v` holds an address from the region's start on and its first address
      lies before the region's end, as far as 32-bit addresses go. */
  predicate Reaches(r: Region, v: int) {
    r.base < 0x1_0000_0000 && r.base < 4096 * v + 4096 && 4096 * v < (r.base + r.len) % 0x1_0000_0000_0000_0000
  }

  /** The pages of the first megabyte, those the usable regions reach, and those
      of the framebuffer; never the last page of the address space but for the
      framebuffer. */
  lemma WantedIff(regions: seq<Region>, lfb: u32, lfbSize: nat, v: int)
    ensures Wanted(regions, lfb, lfbSize, v) <==>
      || v < 256
      || (v < 0xF_FFFF && exists k :: 0 <= k < |regions| && regions[k].kind == 1 && Reaches(regions[k], v))
      || (lfb != 0 && lfb < 4096 * v + 4096 && 4096 * v < lfb + lfbSize)
  {
    hide Touches, Reaches;
    forall k | 0 <= k < |regions| ensures
      Touches(regions[k], v) <==> v < 0xF_FFFF && regions[k].kind == 1 && Reaches(regions[k], v) {
      TouchesIff(regions[k], v);
    }
  }

  lemma TouchesIff(r: Region, v: int)
    ensures Touches(r, v) <==> v < 0xF_FFFF && r.kind == 1 && Reaches(r, v)
  {
  }

  /** The directory slots of those pages. */
  ghost function WantedSlots(regions: seq<Region>, lfb: u32, lfbSize: nat): set<int> {
    set i | 0 <= i < 1024 &&
      (i == 0 || SlotTouched(regions, i) || (lfb != 0 && CoversSlot(lfb, lfb + lfbSize, i)))
  }

  lemma CoversSlotIff(start: int, end: int, i: int)
    requires 0 <= start && end <= MEMORY_CAP && 0 <= i
    ensures CoversSlot(start, end, i) <==> exists v :: 0 <= v < PAGES && v / 1024 == i && Covers(start, end, v)
  {
    var b := start / 4096;
    assert start / 0x40_0000 == b / 1024;
    if CoversSlot(start, end, i) {
      var v := Max(b, 1024 * i);
      assert 0 <= v < PAGES && v / 1024 == i && Covers(start, end, v);
    }
  }

  lemma SlotTouchedIff(regions: seq<Region>, i: int)
    requires 0 <= i && forall k :: 0 <= k < |regions| ==> regions[k].base >= 0
    ensures SlotTouched(regions, i) <==> exists v :: 0 <= v < PAGES && v / 1024 == i && Touched(regions, v)
  {
    hide Covers, CoversSlot, RegionEnd, Considered;
    if SlotTouched(regions, i) {
      var k :| 0 <= k < |regions| && Considered(regions[k]) && CoversSlot(regions[k].base, RegionEnd(regions[k]), i);
      RegionEndBound(regions[k]);
      CoversSlotIff(regions[k].base, RegionEnd(regions[k]), i);
      var v :| 0 <= v < PAGES && v / 1024 == i && Covers(regions[k].base, RegionEnd(regions[k]), v);
      assert Touches(regions[k], v) && Touched(regions, v);
    }
    if v :| 0 <= v < PAGES && v / 1024 == i && Touched(regions, v) {
      var k :| 0 <= k < |regions| && Touches(regions[k], v);
      RegionEndBound(regions[k]);
      CoversSlotIff(regions[k].base, RegionEnd(regions[k]), i);
    }
  }

  /** They are exactly the slots of the pages wanted. */
  lemma WantedSlotsAre(regions: seq<Region>, lfb: u32, lfbSize: nat, i: int)
    requires 0 <= i < 1024 && lfb + lfbSize <= MEMORY_CAP
    requires forall k :: 0 <= k < |regions| ==> regions[k].base >= 0
    ensures i in WantedSlots(regions, lfb, lfbSize) <==>
      exists v :: 0 <= v < PAGES && v / 1024 == i && Wanted(regions, lfb, lfbSize, v)
  {
    hide Covers, CoversSlot, Touched, SlotTouched;
    CoversSlotIff(lfb, lfb + lfbSize, i);
    SlotTouchedIff(regions, i);
    if i in WantedSlots(regions, lfb, lfbSize) {
      if SlotTouched(regions, i) {
        var v :| 0 <= v < PAGES && v / 1024 == i && Touched(regions, v);
        assert Wanted(regions, lfb, lfbSize, v);
      } else if i == 0 {
        assert Wanted(regions, lfb, lfbSize, 0) && 0 / 1024 == 0;
      } else {
        var v :| 0 <= v < PAGES && v / 1024 == i && Covers(lfb, lfb + lfbSize, v);
        assert Wanted(regions, lfb, lfbSize, v);
      }
    }
  }

  lemma RegionEndBound(r: Region)
    ensures RegionEnd(r) <= MEMORY_CAP
  {
  }

  lemma NoTables(pd: seq<u32>, phys: seq<u32>)
    requires TablesApart(pd) && |phys| == PHYS_WORDS && forall f :: !IsTable(pd, f)
    ensures Slots(pd) == {} && AtZero(pd) == {} && Alone(pd) && forall i :: 0 <= i < 1024 ==> !Present(pd[i])
    ensures forall v :: 0 <= v < PAGES ==> Maps(pd, phys, v) == -1
  {
    forall i | 0 <= i < 1024 ensures !Present(pd[i]) {
      assert !IsTable(pd, pd[i] / 4096);
    }
  }

  lemma ZeroWanted(regions: seq<Region>, lfb: u32, lfbSize: nat)
    ensures Wanted(regions, lfb, lfbSize, 0)
  {
  }

  /** What pmm_init has made free is wanted, on a map whose considered regions
      start below the cap. */
  lemma FreeIsWanted(regions: seq<Region>, lfb: u32, lfbSize: nat, f: int)
    requires Opened(regions, f)
    requires forall k :: 0 <= k < |regions| && Considered(regions[k]) ==>
      IsRegion(regions[k]) && regions[k].base <= MEMORY_CAP
    ensures Wanted(regions, lfb, lfbSize, f)
  {
    OpenedIsTouched(regions, f);
  }

  /** Two tables at address 0, with an entry in them, are no identity mapping. */
  lemma NotIdentity(pd: seq<u32>, phys: seq<u32>, regions: seq<Region>, lfb: u32, lfbSize: nat)
    requires |pd| == 1024 && |phys| == PHYS_WORDS && !Alone(pd) && exists e :: 0 <= e < 1024 && Present(phys[e])
    ensures exists v :: 0 <= v < PAGES && Maps(pd, phys, v) != if Wanted(regions, lfb, lfbSize, v) then v else -1
  {
    hide Maps, Wanted;
    var i, j :| 0 <= i < j < 1024 && pd[i] == 3 && pd[j] == 3;
    var e :| 0 <= e < 1024 && Present(phys[e]);
    SharedTable(pd, phys, i, j, e);
    var u, v := 1024 * i + e, 1024 * j + e;
    assert 0 <= u < PAGES && 0 <= v < PAGES;
  }

  /** The map is the wanted one if and only if the tables found room. */
  lemma EnoughTables(pd: seq<u32>, phys: seq<u32>, regions: seq<Region>, lfb: u32, lfbSize: nat,
                     after: nat, before: nat)
    requires |pd| == 1024 && |phys| == PHYS_WORDS && |Slots(pd)| - |AtZero(pd)| + after == before
    requires |AtZero(pd)| > 0 ==> after == 0 && exists e :: 0 <= e < 1024 && Present(phys[e])
    requires forall j :: 0 <= j < 1024 ==>
      (Present(pd[j]) <==> j == 0 || SlotTouched(regions, j) || (lfb != 0 && CoversSlot(lfb, lfb + lfbSize, j)))
    requires Alone(pd) ==> forall v :: 0 <= v < PAGES ==>
      Maps(pd, phys, v) == if Wanted(regions, lfb, lfbSize, v) then v else -1
    ensures Alone(pd) <==> |WantedSlots(regions, lfb, lfbSize)| <= before + 1
    ensures (forall v :: 0 <= v < PAGES ==> Maps(pd, phys, v) == if Wanted(regions, lfb, lfbSize, v) then v else -1)
      <==> Alone(pd)
  {
    hide Maps, Wanted, SlotTouched, CoversSlot;
    assert Slots(pd) == WantedSlots(regions, lfb, lfbSize);
    AloneIff(pd);
    if !Alone(pd) {
      NotIdentity(pd, phys, regions, lfb, lfbSize);
    }
  }

  // --- the mapper -----------------------------------------------------------

  class Mapper {
    const pmm: FrameAllocator
    const pageDir: array<u32>
    const phys: array<u32>
    /** Paging is switched on: stores go through the tables. */
    var enabled: bool

    ghost predicate Valid()
      reads this, pmm, pmm.bitmap, pageDir, phys
    {
      && pmm.Valid() && pageDir.Length == 1024 && phys.Length == PHYS_WORDS && pageDir != phys
      && TablesApart(pageDir[..])
      && (forall f :: IsTable(pageDir[..], f) ==> !pmm.IsFree(f))
      && (forall f :: pmm.IsFree(f) ==> LOW_FRAMES <= f)
    }

    /** The frame of page `v`, or -1: the map the machine translates by. */
    ghost function Frame(v: nat): int
      requires v < PAGES && pageDir.Length == 1024 && phys.Length == PHYS_WORDS
      reads pageDir, phys
    {
      Maps(pageDir[..], phys[..], v)
    }

    /** Address 0, every free frame and every page table is identity-mapped. */
    ghost predicate Reachable()
      requires pageDir.Length == 1024 && phys.Length == PHYS_WORDS
      reads this, pmm, pmm.bitmap, pageDir, phys
    {
      forall f :: 0 <= f < PAGES && (f == 0 || pmm.IsFree(f) || IsTable(pageDir[..], f)) ==> Frame(f) == f
    }

    /** What storing through the tables needs once paging is on. */
    ghost predicate Ready()
      requires pageDir.Length == 1024 && phys.Length == PHYS_WORDS
      reads this, pmm, pmm.bitmap, pageDir, phys
    {
      enabled ==> Reachable() && !IsTable(pageDir[..], 0)
    }

    constructor (pmm: FrameAllocator)
      requires pmm.Valid() && forall f :: pmm.IsFree(f) ==> LOW_FRAMES <= f
      ensures Valid() && !enabled && this.pmm == pmm && fresh(pageDir) && fresh(phys)
      ensures forall v :: 0 <= v < PAGES ==> Frame(v) == -1
      ensures forall f :: !IsTable(pageDir[..], f)
    {
      this.pmm, enabled := pmm, false;
      pageDir := new u32[1024](_ => 0);
      phys := new u32[PHYS_WORDS];
    }

    /** A store to a virtual address. Before paging is on addresses are
        physical; afterwards the tables decide where the word goes. */
    method Store(addr: nat, value: u32)
      requires pageDir.Length == 1024 && phys.Length == PHYS_WORDS && pageDir != phys
      requires addr % 4 == 0 && addr < 0x1_0000_0000
      requires enabled ==> Frame(addr / 4096) >= 0
      modifies phys
      ensures phys[..] == old(phys[..])[
        (if enabled then old(Frame(addr / 4096)) else addr / 4096) * 1024 + addr % 4096 / 4 := value]
    {
      if enabled {
        var v := addr / 4096;
        var table := pageDir[v / 1024] / 4096;
        var target := phys[table * 1024 + v % 1024] / 4096;
        phys[target * 1024 + addr % 4096 / 4] := value;
      } else {
        phys[addr / 4096 * 1024 + addr % 4096 / 4] := value;
      }
    }

    /** A store to word `e` of a frame that is mapped to itself. */
    method StoreAt(t: nat, e: nat, value: u32)
      requires pageDir.Length == 1024 && phys.Length == PHYS_WORDS && pageDir != phys && t < PAGES && e < 1024
      requires enabled ==> Frame(t) == t
      modifies phys
      ensures phys[..] == old(phys[..])[t * 1024 + e := value]
    {
      hide Maps;
      SlotAddress(t, e);
      Store(4096 * t + 4 * e, value);
    }

    /** memset of a page. */
    method ClearFrame(f: nat)
      requires pageDir.Length == 1024 && phys.Length == PHYS_WORDS && pageDir != phys && f < PAGES
      requires enabled ==> !IsTable(pageDir[..], f) && Frame(f) == f
      modifies phys
      ensures forall k :: 0 <= k < PHYS_WORDS ==> phys[k] == if k / 1024 == f then 0 else old(phys[k])
    {
      hide Maps, IsTable;
      var j := 0;
      while j < 1024
        invariant 0 <= j <= 1024
        invariant enabled ==> Frame(f) == f
        invariant pageDir[..] == old(pageDir[..])
        invariant forall k :: 0 <= k < PHYS_WORDS ==>
          phys[k] == if 1024 * f <= k < 1024 * f + j then 0 else old(phys[k])
      {
        if enabled {
          StoreElsewhere(pageDir[..], phys[..], f * 1024 + j, 0);
        }
        ghost var before := phys[..];
        StoreAt(f, j, 0);
        assert phys[..] == before[f * 1024 + j := 0];
        j := j + 1;
      }
    }

    /** A cleared page table for empty directory slot `i`. With no frame left
        pmm_alloc_frame answers 0, and the table is put at address 0. */
    method NewTable(i: nat) returns (addr: u32)
      requires Valid() && Ready() && i < 1024 && !Present(pageDir[i])
      modifies pmm`freeFrames, pmm`searchHint, pmm.bitmap, pageDir, phys
      ensures Valid() && (enabled ==> Reachable())
      ensures addr == 0 <==> old(pmm.freeFrames) == 0
      ensures pmm.freeFrames == if addr == 0 then 0 else old(pmm.freeFrames) - 1
      ensures addr % 4096 == 0 && addr + 3 < 0x1_0000_0000 && pageDir[..] == old(pageDir[..])[i := addr + 3]
      ensures addr == 0 ==> forall v :: 0 <= v < PAGES ==>
        Frame(v) == if Shares(pageDir[..], i, v) then -1 else old(Frame(v))
      ensures addr == 0 ==> forall f :: pmm.IsFree(f) <==> old(pmm.IsFree(f))
      ensures addr != 0 ==> forall v :: 0 <= v < PAGES ==> Frame(v) == old(Frame(v))
      ensures addr != 0 ==>
        && IsLowestFree(old(pmm.bitmap[..]), addr / 4096) && old(pmm.IsFree(addr / 4096))
        && forall f :: pmm.IsFree(f) <==> old(pmm.IsFree(f)) && f != addr / 4096
      ensures forall f :: IsTable(pageDir[..], f) <==> old(IsTable(pageDir[..], f)) || f == addr / 4096
      ensures forall k :: 0 <= k < PHYS_WORDS && k / 1024 != addr / 4096 ==> phys[k] == old(phys[k])
    {
      hide Maps, IsTable, TablesApart, Used, CountFree, Shares;
      AbsentIsEmpty(pageDir[..], i);
      addr := pmm.Alloc();
      assert pageDir[..] == old(pageDir[..]) && phys[..] == old(phys[..]);
      ghost var f := addr / 4096;
      assert old(pmm.freeFrames) > 0 ==> old(pmm.IsFree(f)) && LOW_FRAMES <= f;
      if addr == 0 {
        assert forall g :: pmm.IsFree(g) <==> old(pmm.IsFree(g));
      }
      assert enabled ==> Frame(f) == f;
      ClearFrame(addr / 4096);
      ghost var pd, before, words := pageDir[..], old(phys[..]), phys[..];
      assert pd == old(pageDir[..]);
      pageDir[i] := addr + 3;
      ghost var after := pageDir[..];
      assert after == pd[i := EntryFor(f)] && phys[..] == words;
      if addr == 0 {
        BorrowTable(pd, after, before, words, i);
        forall g | enabled && 0 <= g < PAGES && (g == 0 || pmm.IsFree(g) || IsTable(pd, g)) ensures Frame(g) == g {
          BorrowSpares(pd, before, i, g);
        }
      } else {
        ClearedElsewhere(pd, before, words, f);
        EnterTable(pd, after, words, i, f);
      }
    }

    /** Writes entry `e` of the table at `pt`, which directory slot `i` names. */
    method SetEntry(i: nat, e: nat, pt: u32, target: nat)
      requires Valid() && (enabled ==> Reachable()) && i < 1024 && e < 1024 && target < PAGES
      requires Present(pageDir[i]) && pt == pageDir[i] / 4096 * 4096
      requires enabled ==> Alone(pageDir[..])
      requires enabled && 1024 * i + e != target ==>
        1024 * i + e != 0 && !pmm.IsFree(1024 * i + e) && !IsTable(pageDir[..], 1024 * i + e)
      modifies phys
      ensures Valid() && (enabled ==> Reachable())
      ensures forall v :: 0 <= v < PAGES ==>
        Frame(v) == if Shares(pageDir[..], i, v) && v % 1024 == e then target else old(Frame(v))
      ensures phys[..] == old(phys[..])[pt / 4096 * 1024 + e := EntryFor(target)] && IsTable(pageDir[..], pt / 4096)
    {
      hide Maps, IsTable, TablesApart, Used, CountFree, Present, Shares, Alone, FrameAllocator.IsFree;
      ghost var was, words := pageDir[..], phys[..];
      var t := pt / 4096;
      TableFacts(was, i);
      StoreEntry(was, words, i, e, target);
      StoreAt(t, e, target * 4096 + 3);
      assert phys[..] == words[t * 1024 + e := EntryFor(target)];
      assert pageDir[..] == was && IsTable(was, t);
      assert forall f :: pmm.IsFree(f) <==> old(pmm.IsFree(f));
      forall f | enabled && 0 <= f < PAGES && (f == 0 || old(pmm.IsFree(f)) || IsTable(was, f)) ensures Frame(f) == f {
        StaysAtItself(was, i, e, target, f);
        assert old(Frame(f)) == f;
      }
    }

    /** paging_map, as it is: page `virt` goes to frame `target` in every slot
        that uses the same table. The last frame gone, a missing table is put
        at address 0, and the slots that were given address 0 before lose their
        pages; as long as there is none, no other page moves. */
    method Map(virt: u32, target: u32)
      requires Valid() && Ready()
      requires enabled && virt / 4096 != target / 4096 ==>
        virt / 4096 != 0 && !pmm.IsFree(virt / 4096) && !IsTable(pageDir[..], virt / 4096)
      modifies pmm`freeFrames, pmm`searchHint, pmm.bitmap, pageDir, phys
      ensures Valid() && (enabled ==> Reachable())
      ensures var i, was := virt / 0x40_0000, old(pageDir[..]);
        && pageDir[..] == was[i := pageDir[i]] && Present(pageDir[i]) && (Present(was[i]) ==> pageDir[i] == was[i])
        && (!Present(was[i]) ==> (pageDir[i] == 3 <==> old(pmm.freeFrames) == 0))
        && pmm.freeFrames == old(pmm.freeFrames) - (if Present(was[i]) || old(pmm.freeFrames) == 0 then 0 else 1)
      ensures forall v :: 0 <= v < PAGES ==>
        Frame(v) == Moved(old(pageDir[..]), pageDir[..], virt, target, v, old(Frame(v)))
      ensures Alone(pageDir[..]) ==>
        forall v :: 0 <= v < PAGES ==> Frame(v) == if v == virt / 4096 then target / 4096 else old(Frame(v))
      ensures forall f :: IsTable(pageDir[..], f) ==> f == 0 || old(IsTable(pageDir[..], f) || pmm.IsFree(f))
      ensures forall f :: pmm.IsFree(f) ==> old(pmm.IsFree(f))
      ensures forall k :: 0 <= k < PHYS_WORDS && !IsTable(pageDir[..], k / 1024) ==> phys[k] == old(phys[k])
      ensures if pageDir[virt / 0x40_0000] == 3 then Present(phys[virt / 4096 % 1024])
              else forall k :: 0 <= k < 1024 ==> phys[k] == old(phys[k])
    {
      hide Maps, IsTable, TablesApart, Used, CountFree, Present, IsLowestFree, Shares, Alone, FrameAllocator.IsFree;
      ghost var was, words := pageDir[..], phys[..];
      var pdIdx, ptIdx := virt / 0x40_0000, virt / 4096 % 1024;
      PageSplit(virt);
      var pt := TableOf(pdIdx);
      SetEntry(pdIdx, ptIdx, pt, target / 4096);
      EntryNamesFrame(target / 4096);
      TableAddress(pageDir[..], pdIdx);
      if Alone(pageDir[..]) {
        forall v | 0 <= v < PAGES ensures Frame(v) == if v == virt / 4096 then target / 4096 else old(Frame(v)) {
          MovedAlone(was, pageDir[..], words, virt, target, v);
        }
      }
    }

    /** The first half of paging_map: the table behind slot `i`, taken now when
        there is none. */
    method TableOf(i: nat) returns (pt: u32)
      requires Valid() && Ready() && i < 1024
      modifies pmm`freeFrames, pmm`searchHint, pmm.bitmap, pageDir, phys
      ensures Valid() && (enabled ==> Reachable() && Alone(pageDir[..]))
      ensures Present(pageDir[i]) && pt == pageDir[i] / 4096 * 4096
      ensures var was := old(pageDir[..]);
        && pageDir[..] == was[i := pageDir[i]] && (Present(was[i]) ==> pageDir[i] == was[i])
        && (was[i] == 0 <==> !Present(was[i]))
        && (!Present(was[i]) ==> (pageDir[i] == 3 <==> old(pmm.freeFrames) == 0))
        && pmm.freeFrames == old(pmm.freeFrames) - (if Present(was[i]) || old(pmm.freeFrames) == 0 then 0 else 1)
      ensures forall v :: 0 <= v < PAGES ==>
        Frame(v) == if old(pageDir[i]) == 0 && pageDir[i] == 3 && Shares(pageDir[..], i, v) then -1 else old(Frame(v))
      ensures forall f :: pmm.IsFree(f) ==> old(pmm.IsFree(f))
      ensures forall f :: IsTable(pageDir[..], f) ==>
        f == 0 || old(IsTable(pageDir[..], f)) || (old(pmm.IsFree(f)) && !pmm.IsFree(f))
      ensures forall k :: 0 <= k < PHYS_WORDS && k / 1024 != pt / 4096 ==> phys[k] == old(phys[k])
    {
      hide Maps, IsTable, TablesApart, Used, CountFree, Present, IsLowestFree, Shares, Alone, FrameAllocator.IsFree;
      ghost var was := pageDir[..];
      EmptyOrPresent(was, i);
      if Present(pageDir[i]) {
        pt := pageDir[i] / 4096 * 4096;
      } else {
        pt := NewTable(i);
        NamesTable(pt);
      }
      if enabled {
        OneBorrowed(was, pageDir[..], i);
      }
    }

    /** A table at address 0 was put there when the frames ran out, and it is
        not empty. */
    ghost predicate ZeroInUse()
      requires phys.Length == PHYS_WORDS
      reads this, pmm, pageDir, phys
    {
      AtZero(pageDir[..]) != {} ==> pmm.freeFrames == 0 && exists e :: 0 <= e < 1024 && Present(phys[e])
    }

    /** The frames there would be if no page table had taken one. */
    ghost function Total(): int
      reads this, pmm, pageDir
    {
      |Slots(pageDir[..])| - |AtZero(pageDir[..])| + pmm.freeFrames
    }

    /** One turn of identity_map_range. */
    method MapSelf(p: u32)
      requires Valid() && !enabled && ZeroInUse()
      modifies pmm`freeFrames, pmm`searchHint, pmm.bitmap, pageDir, phys
      ensures Valid() && ZeroInUse() && Total() == old(Total())
      ensures pageDir[..] == old(pageDir[..])[p / 0x40_0000 := pageDir[p / 0x40_0000]]
      ensures Present(pageDir[p / 0x40_0000])
      ensures Alone(pageDir[..]) ==> old(Alone(pageDir[..]))
      ensures Alone(pageDir[..]) ==>
        forall v :: 0 <= v < PAGES ==> Frame(v) == if v == p / 4096 then p / 4096 else old(Frame(v))
      ensures forall f :: IsTable(pageDir[..], f) ==> f == 0 || old(IsTable(pageDir[..], f) || pmm.IsFree(f))
      ensures forall f :: pmm.IsFree(f) ==> old(pmm.IsFree(f))
    {
      hide Maps, IsTable, TablesApart, Used, CountFree, Alone, Slots, AtZero, Moved;
      ghost var was, before := pageDir[..], pmm.freeFrames;
      EmptyOrPresent(was, p / 0x40_0000);
      PageSplit(p);
      Map(p, p);
      SlotEntered(was, pageDir[..], p / 0x40_0000, before, pmm.freeFrames);
    }

    /** identity_map_range: the pages from `start` rounded down to before `end`. */
    method IdentityRange(start: u32, end: u32)
      requires Valid() && !enabled && ZeroInUse() && end <= MEMORY_CAP
      modifies pmm`freeFrames, pmm`searchHint, pmm.bitmap, pageDir, phys
      ensures Valid() && ZeroInUse() && Total() == old(Total())
      ensures forall i :: 0 <= i < 1024 ==>
        (Present(pageDir[i]) <==> old(Present(pageDir[i])) || CoversSlot(start, end, i))
      ensures Alone(pageDir[..]) ==> old(Alone(pageDir[..]))
      ensures Alone(pageDir[..]) ==>
        forall v :: 0 <= v < PAGES ==> Frame(v) == if Covers(start, end, v) then v else old(Frame(v))
      ensures forall f :: IsTable(pageDir[..], f) ==> f == 0 || old(IsTable(pageDir[..], f) || pmm.IsFree(f))
      ensures forall f :: pmm.IsFree(f) ==> old(pmm.IsFree(f))
    {
      hide Maps, IsTable, TablesApart, Used, CountFree, Alone, Slots, AtZero, Present, CoversSlot;
      var p: u32 := start / 4096 * 4096;
      NoSlotYet(start);
      while p < end
        invariant Valid() && ZeroInUse() && Total() == old(Total())
        invariant p % 4096 == 0 && start / 4096 * 4096 <= p <= MEMORY_CAP
        invariant forall i :: 0 <= i < 1024 ==>
          (Present(pageDir[i]) <==> old(Present(pageDir[i])) || CoversSlot(start, p, i))
        invariant Alone(pageDir[..]) ==> old(Alone(pageDir[..]))
        invariant Alone(pageDir[..]) ==> forall v :: 0 <= v < PAGES ==>
          Frame(v) == if start / 4096 <= v < p / 4096 then v else old(Frame(v))
        invariant forall f :: IsTable(pageDir[..], f) ==> f == 0 || old(IsTable(pageDir[..], f) || pmm.IsFree(f))
        invariant forall f :: pmm.IsFree(f) ==> old(pmm.IsFree(f))
        invariant start / 4096 < p / 4096 ==> 4096 * (p / 4096 - 1) < end
        decreases MEMORY_CAP - p
      {
        SlotNext(start, p);
        MapSelf(p);
        p := p + 4096;
      }
      SlotsDone(start, end, p);
    }

    ghost predicate FreeWanted(regions: seq<Region>, lfb: u32, lfbSize: nat)
      reads this, pmm, pmm.bitmap
    {
      forall f :: pmm.IsFree(f) ==> Wanted(regions, lfb, lfbSize, f)
    }

    /** paging_init: identity-maps the first megabyte, the pages that usable
        regions touch, and the framebuffer, and nothing else, if and only if
        there is a frame for every page table but one. Then every page table is
        reachable at its own address, and so is every free frame if the regions
        that opened them are mapped, as FreeIsWanted says. */
    method Init(regions: seq<Region>, lfb: u32, lfbSize: nat)
      requires Valid() && !enabled
      requires forall f :: !IsTable(pageDir[..], f)
      requires (forall k :: 0 <= k < |regions| ==> IsRegion(regions[k])) && lfb + lfbSize <= MEMORY_CAP
      modifies this`enabled, pmm`freeFrames, pmm`searchHint, pmm.bitmap, pageDir, phys
      ensures Valid() && enabled
      ensures (forall v :: 0 <= v < PAGES ==> Frame(v) == if Wanted(regions, lfb, lfbSize, v) then v else -1)
        <==> |WantedSlots(regions, lfb, lfbSize)| <= old(pmm.freeFrames) + 1
      ensures old(FreeWanted(regions, lfb, lfbSize)) ==>
        |WantedSlots(regions, lfb, lfbSize)| <= old(pmm.freeFrames) + 1 ==> Reachable()
      ensures IsTable(pageDir[..], 0) ==> pmm.freeFrames == 0
      ensures forall f :: IsTable(pageDir[..], f) || pmm.IsFree(f) ==> f == 0 || old(pmm.IsFree(f))
    {
      hide Maps, IsTable, TablesApart, Used, CountFree, Touched, Touches, Opened, Opens, Alone, Slots, AtZero;
      hide SlotTouched, CoversSlot, Wanted, WantedSlots;
      NoTables(pageDir[..], phys[..]);
      IdentityRange(0, 0x10_0000);
      FirstMegabyte();
      NoneTouched(regions);
      NoSlotTouched(regions);
      var i := 0;
      while i < |regions|
        invariant 0 <= i <= |regions| && Valid() && !enabled && pageDir.Length == 1024
        invariant ZeroInUse() && Total() == old(pmm.freeFrames)
        invariant forall j :: 0 <= j < 1024 ==> (Present(pageDir[j]) <==> j == 0 || SlotTouched(regions[..i], j))
        invariant Alone(pageDir[..]) ==> forall v :: 0 <= v < PAGES ==>
          Frame(v) == if v < LOW_FRAMES || Touched(regions[..i], v) then v else -1
        invariant forall f :: IsTable(pageDir[..], f) || pmm.IsFree(f) ==> f == 0 || old(pmm.IsFree(f))
      {
        TouchedNext(regions, i);
        SlotTouchedNext(regions, i);
        var r := regions[i];
        if r.kind == USABLE && r.base < 0x1_0000_0000 {
          IdentityRange(r.base, RegionEnd(r));
        }
        i := i + 1;
      }
      assert regions[..i] == regions;
      if lfb != 0 {
        IdentityRange(lfb, lfb + lfbSize);
      }
      enabled := true;
      WantedIs(regions, lfb, lfbSize);
      TableAtZero(pageDir[..]);
      assert Alone(pageDir[..]) ==> forall v :: 0 <= v < PAGES ==>
        Frame(v) == if Wanted(regions, lfb, lfbSize, v) then v else -1;
      EnoughTables(pageDir[..], phys[..], regions, lfb, lfbSize, pmm.freeFrames, old(pmm.freeFrames));
      ZeroWanted(regions, lfb, lfbSize);
    }

    /** Free frames and page tables lie below the heap window. */
    ghost predicate BelowHeap()
      requires pageDir.Length == 1024
      reads this, pmm, pmm.bitmap, pageDir
    {
      forall f :: pmm.IsFree(f) || IsTable(pageDir[..], f) ==> f < HEAP_PAGE
    }

    /** One step of the heap's growth: a fresh frame behind a page of the heap
        window. It takes a second frame when the window's slot has no page table
        and there is one; the last frame of all goes behind its page, with the
        table at address 0. All other pages stay. */
    method MapHeapPage(virt: u32) returns (frame: u32)
      requires Valid() && enabled && Reachable() && BelowHeap() && virt / 4096 >= HEAP_PAGE
      requires IsTable(pageDir[..], 0) ==> pmm.freeFrames == 0
      modifies pmm`freeFrames, pmm`searchHint, pmm.bitmap, pageDir, phys
      ensures Valid() && Reachable() && BelowHeap()
      ensures IsTable(pageDir[..], 0) ==> pmm.freeFrames == 0
      ensures frame == 0 <==> old(pmm.freeFrames) == 0
      ensures frame != 0 ==> IsLowestFree(old(pmm.bitmap[..]), frame / 4096)
      ensures frame != 0 ==>
        old(pmm.IsFree(frame / 4096)) && !pmm.IsFree(frame / 4096) && !IsTable(pageDir[..], frame / 4096)
      ensures forall f :: IsTable(pageDir[..], f) ==> f == 0 || old(IsTable(pageDir[..], f) || pmm.IsFree(f))
      ensures forall f :: pmm.IsFree(f) ==> old(pmm.IsFree(f))
      ensures var i, was := virt / 0x40_0000, old(pageDir[..]);
        pageDir[..] == was[i := pageDir[i]] && (frame == 0 ==> pageDir[i] == was[i])
      ensures frame != 0 ==> Present(pageDir[virt / 0x40_0000])
      ensures var taken := if old(Present(pageDir[virt / 0x40_0000])) || old(pmm.freeFrames) == 1 then 1 else 2;
        frame != 0 ==> pmm.freeFrames == old(pmm.freeFrames) - taken
      ensures forall v :: 0 <= v < PAGES ==>
        Frame(v) == if frame != 0 && v == virt / 4096 then frame / 4096 else old(Frame(v))
    {
      hide Maps, IsTable, TablesApart, Used, CountFree, Moved, Alone;
      frame := pmm.Alloc();
      assert old(pmm.freeFrames) > 0 ==> old(pmm.IsFree(frame / 4096)) && LOW_FRAMES <= frame / 4096;
      assert pageDir[..] == old(pageDir[..]) && phys[..] == old(phys[..]);
      if frame == 0 {
        assert forall g :: pmm.IsFree(g) <==> old(pmm.IsFree(g));
        return;
      }
      ghost var was := pageDir[..];
      PageSplit(virt);
      Map(virt, frame);
      OneBorrowed(was, pageDir[..], virt / 0x40_0000);
      ZeroEntered(was, pageDir[..], virt / 0x40_0000);
    }
  }
}
