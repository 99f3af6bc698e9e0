/** The physical memory manager: a bitmap of page frames, one bit each, with a
    search hint, built from the BIOS memory map. */
module Pmm {
  import opened Bytes

  const FRAME_SIZE := 4096
  const MAX_FRAMES := 0x10_0000
  /** Usable memory is capped here, so that its end fits in 32 bits. */
  const MEMORY_CAP := 0xFFFF_F000
  /** The frames of the first megabyte stay reserved. */
  const LOW_FRAMES := 256

  // --- bits of a word -------------------------------------------------------

  /** A bit number as the shift amount the machine uses. */
  function Shift(i: nat): (s: bv32)
    requires i < 32
    ensures s < 32 && s as int == i
  {
    i as bv5 as bv32
  }

  predicate BitAt(w: bv32, s: bv32)
    requires s < 32
  {
    (w >> s) & 1 == 1
  }

  /** The word with one bit set. */
  function WithBit(w: bv32, s: bv32): bv32
    requires s < 32
  {
    w | (1 << s)
  }

  /** The word with one bit cleared. */
  function WithoutBit(w: bv32, s: bv32): bv32
    requires s < 32
  {
    w & !(1 << s)
  }

  /** Bit `s` of the word is clear. */
  predicate IsClear(w: bv32, s: bv32)
    requires s < 32
  {
    w & (1 << s) == 0
  }

  lemma WithBitAt(w: bv32, s: bv32, t: bv32)
    requires s < 32 && t < 32
    ensures BitAt(WithBit(w, s), t) <==> s == t || BitAt(w, t)
  {
  }

  lemma WithoutBitAt(w: bv32, s: bv32, t: bv32)
    requires s < 32 && t < 32
    ensures BitAt(WithoutBit(w, s), t) <==> s != t && BitAt(w, t)
  {
  }

  lemma ClearBitAt(w: bv32, s: bv32)
    requires s < 32
    ensures IsClear(w, s) <==> !BitAt(w, s)
  {
  }

  /** The lowest clear bit of a word, 32 when there is none. */
  method LowestClear(word: bv32) returns (b: nat)
    ensures b <= 32
    ensures b < 32 ==> !BitAt(word, Shift(b))
    ensures forall c :: 0 <= c < b ==> BitAt(word, Shift(c))
  {
    hide BitAt, IsClear, Shift;
    b := 0;
    while b < 32
      invariant 0 <= b <= 32
      invariant forall c :: 0 <= c < b ==> BitAt(word, Shift(c))
    {
      ClearBitAt(word, Shift(b));
      if IsClear(word, Shift(b)) {
        return;
      }
      b := b + 1;
    }
  }

  lemma FullWord(s: bv32)
    requires s < 32
    ensures BitAt(0xFFFF_FFFF, s)
  {
  }

  /** A word all of whose bits are set is all ones. */
  lemma AllBitsAt(w: bv32)
    requires forall s: bv32 :: s < 32 ==> BitAt(w, s)
    ensures w == 0xFFFF_FFFF
  {
    assert BitAt(w, 0) && BitAt(w, 1) && BitAt(w, 2) && BitAt(w, 3);
    assert BitAt(w, 4) && BitAt(w, 5) && BitAt(w, 6) && BitAt(w, 7);
    assert BitAt(w, 8) && BitAt(w, 9) && BitAt(w, 10) && BitAt(w, 11);
    assert BitAt(w, 12) && BitAt(w, 13) && BitAt(w, 14) && BitAt(w, 15);
    assert BitAt(w, 16) && BitAt(w, 17) && BitAt(w, 18) && BitAt(w, 19);
    assert BitAt(w, 20) && BitAt(w, 21) && BitAt(w, 22) && BitAt(w, 23);
    assert BitAt(w, 24) && BitAt(w, 25) && BitAt(w, 26) && BitAt(w, 27);
    assert BitAt(w, 28) && BitAt(w, 29) && BitAt(w, 30) && BitAt(w, 31);
  }

  // --- the bitmap as a set of frames ----------------------------------------

  /** Frame `f` is reserved or in use. */
  predicate Used(bitmap: seq<bv32>, f: nat)
    requires f < 32 * |bitmap|
  {
    BitAt(bitmap[f / 32], Shift(f % 32))
  }

  /** The number of free frames below `n`. */
  ghost function CountFree(bitmap: seq<bv32>, n: nat): nat
    requires n <= 32 * |bitmap|
  {
    if n == 0 then 0 else CountFree(bitmap, n - 1) + if Used(bitmap, n - 1) then 0 else 1
  }

  /** Bitmaps that differ in frame `f` only. */
  ghost predicate DiffersAt(a: seq<bv32>, b: seq<bv32>, f: nat) {
    |a| == |b| && f < 32 * |a| && forall g :: 0 <= g < 32 * |a| && g != f ==> (Used(a, g) <==> Used(b, g))
  }

  lemma {:induction false} CountAfterUse(a: seq<bv32>, b: seq<bv32>, f: nat, n: nat)
    requires DiffersAt(a, b, f) && !Used(a, f) && Used(b, f) && n <= 32 * |a|
    ensures CountFree(b, n) == CountFree(a, n) - if f < n then 1 else 0
    decreases n
  {
    hide BitAt, Used;
    if n > 0 {
      CountAfterUse(a, b, f, n - 1);
    }
  }

  lemma {:induction false} NoneFree(bitmap: seq<bv32>, n: nat)
    requires n <= 32 * |bitmap| && forall f :: 0 <= f < n ==> Used(bitmap, f)
    ensures CountFree(bitmap, n) == 0
    decreases n
  {
    hide BitAt, Used;
    if n > 0 {
      NoneFree(bitmap, n - 1);
    }
  }

  lemma {:induction false} SomeFree(bitmap: seq<bv32>, f: nat, n: nat)
    requires f < n <= 32 * |bitmap| && !Used(bitmap, f)
    ensures CountFree(bitmap, n) > 0
    decreases n
  {
    hide BitAt, Used;
    if f < n - 1 {
      SomeFree(bitmap, f, n - 1);
    }
  }

  /** The simple allocator: the lowest free frame. */
  ghost predicate IsLowestFree(bitmap: seq<bv32>, f: nat) {
    f < 32 * |bitmap| && !Used(bitmap, f) && forall g :: 0 <= g < f ==> Used(bitmap, g)
  }

  /** A full word holds 32 used frames. */
  lemma WordFull(bitmap: seq<bv32>, f: nat)
    requires f < 32 * |bitmap| && bitmap[f / 32] == 0xFFFF_FFFF
    ensures Used(bitmap, f)
  {
    FullWord(Shift(f % 32));
  }

  /** A word that is not full holds a free frame. */
  lemma WordAllUsed(bitmap: seq<bv32>, w: nat)
    requires w < |bitmap| && forall f :: 0 <= f < 32 * |bitmap| && f / 32 == w ==> Used(bitmap, f)
    ensures bitmap[w] == 0xFFFF_FFFF
  {
    forall s: bv32 | s < 32 ensures BitAt(bitmap[w], s) {
      var b := s as int;
      assert (32 * w + b) / 32 == w && (32 * w + b) % 32 == b;
      assert Used(bitmap, 32 * w + b) && Shift(b) == s;
    }
    AllBitsAt(bitmap[w]);
  }

  /** The lowest clear bit of the first word that is not full is the lowest free frame. */
  lemma LowestInWord(bitmap: seq<bv32>, w: nat, b: nat)
    requires w < |bitmap| && bitmap[w] != 0xFFFF_FFFF && forall v :: 0 <= v < w ==> bitmap[v] == 0xFFFF_FFFF
    requires b <= 32 && (b < 32 ==> !BitAt(bitmap[w], Shift(b))) &&
      forall c :: 0 <= c < b ==> BitAt(bitmap[w], Shift(c))
    ensures b < 32 && IsLowestFree(bitmap, w * 32 + b) && (w * 32 + b) / 32 == w
  {
    hide BitAt, Shift;
    if b == 32 {
      forall f | 0 <= f < 32 * |bitmap| && f / 32 == w ensures Used(bitmap, f) {
        assert BitAt(bitmap[w], Shift(f % 32));
      }
      WordAllUsed(bitmap, w);
    } else {
      forall g | 0 <= g < w * 32 + b ensures Used(bitmap, g) {
        if g / 32 < w {
          WordFull(bitmap, g);
        }
      }
    }
  }

  lemma AllFull(bitmap: seq<bv32>)
    requires forall v :: 0 <= v < |bitmap| ==> bitmap[v] == 0xFFFF_FFFF
    ensures CountFree(bitmap, 32 * |bitmap|) == 0
  {
    forall f | 0 <= f < 32 * |bitmap| ensures Used(bitmap, f) {
      WordFull(bitmap, f);
    }
    NoneFree(bitmap, 32 * |bitmap|);
  }

  lemma ShiftInjective(i: nat, j: nat)
    requires i < 32 && j < 32
    ensures Shift(i) == Shift(j) <==> i == j
  {
    assert Shift(i) as int == i && Shift(j) as int == j;
  }

  /** Storing a word that differs in one bit changes one frame only. */
  lemma StoredBit(a: seq<bv32>, f: nat, value: bv32, used: bool)
    requires f < 32 * |a|
    requires forall t: bv32 :: t < 32 ==>
      (BitAt(value, t) <==> if t == Shift(f % 32) then used else BitAt(a[f / 32], t))
    ensures DiffersAt(a, a[f / 32 := value], f) && (Used(a[f / 32 := value], f) <==> used)
  {
    hide BitAt, Shift;
    var b := a[f / 32 := value];
    forall g | 0 <= g < 32 * |a| ensures Used(b, g) <==> if g == f then used else Used(a, g) {
      ShiftInjective(f % 32, g % 32);
    }
  }

  // --- the memory map -------------------------------------------------------

  const USABLE := 1

  /** One entry of the BIOS E820 memory map. */
  datatype Region = Region(base: int, len: int, kind: int)

  ghost predicate IsRegion(r: Region) {
    0 <= r.base < 0x1_0000_0000_0000_0000 && 0 <= r.len < 0x1_0000_0000_0000_0000
  }

  /** The first frame pmm_init frees for a region, rounded up on 32 bits. */
  function FirstFrame(r: Region): int {
    (r.base % 0x1_0000_0000 + FRAME_SIZE - 1) % 0x1_0000_0000 / 4096
  }

  /** The end of a region on 64 bits, capped. */
  function RegionEnd(r: Region): int {
    Min((r.base + r.len) % 0x1_0000_0000_0000_0000, MEMORY_CAP)
  }

  /** pmm_init considers this region. */
  predicate Considered(r: Region) {
    r.kind == USABLE && r.base < 0x1_0000_0000
  }

  /** pmm_init frees frame `f` because of this region. */
  predicate Opens(r: Region, f: int) {
    Considered(r) && FirstFrame(r) <= f < RegionEnd(r) / 4096
  }

  /** Frame `f` lies wholly inside a usable region, below the cap. */
  predicate WhollyInside(r: Region, f: int) {
    r.kind == USABLE && r.base <= 4096 * f && 4096 * f + 4096 <= r.base + r.len && 4096 * f + 4096 <= MEMORY_CAP
  }

  /** No wrap-around disturbs this region. A base above the cap is rounded up
      past 2^32 to frame 0, so its end must come out below the first frame's,
      which takes an end that wraps round 2^64; any other base needs an end that
      does not wrap, unless no whole frame below the cap lies behind it. */
  predicate Undisturbed(r: Region) {
    var sum := r.base + r.len;
    if r.base > MEMORY_CAP then sum % 0x1_0000_0000_0000_0000 < 4096
    else sum < 0x1_0000_0000_0000_0000 || r.base > MEMORY_CAP - 4096
  }

  /** pmm_init opens exactly the frames wholly inside a region, if and only if
      no wrap-around disturbs it. */
  lemma OpensExactlyIff(r: Region)
    requires IsRegion(r) && Considered(r)
    ensures (forall f :: 0 <= f < MAX_FRAMES ==> (Opens(r, f) <==> WhollyInside(r, f))) <==> Undisturbed(r)
  {
    if Undisturbed(r) {
      forall f | 0 <= f < MAX_FRAMES ensures Opens(r, f) <==> WhollyInside(r, f) {
        OpensUndisturbed(r, f);
      }
    } else {
      var f := if r.base > MEMORY_CAP then 0 else (r.base + 4095) / 4096;
      DisturbedOpens(r, f);
    }
  }

  lemma OpensUndisturbed(r: Region, f: int)
    requires IsRegion(r) && Considered(r) && Undisturbed(r) && 0 <= f < MAX_FRAMES
    ensures Opens(r, f) <==> WhollyInside(r, f)
  {
  }

  /** In addresses: where nothing wraps, a usable region opens the frames that lie
      wholly inside it, the last one of the address space excepted. */
  lemma OpensIff(r: Region, f: int)
    requires 0 <= r.base <= 0xFFFF_F000 && 0 <= r.len && r.base + r.len < 0x1_0000_0000_0000_0000 && 0 <= f
    ensures Opens(r, f) <==>
      r.kind == 1 && r.base <= 4096 * f && 4096 * f + 4096 <= r.base + r.len && f < 0xF_FFFF
  {
  }

  lemma DisturbedOpens(r: Region, f: int)
    requires IsRegion(r) && Considered(r) && !Undisturbed(r)
    requires f == if r.base > MEMORY_CAP then 0 else (r.base + 4095) / 4096
    ensures 0 <= f < MAX_FRAMES && Opens(r, f) != WhollyInside(r, f)
  {
  }

  /** A region above the cap whose base rounds up past 2^32 contains no frame
      and opens every one below the cap. */
  lemma DisturbedRegion()
    ensures var r := Region(0xFFFF_F001, 0x1000, USABLE);
      !Undisturbed(r) && forall f :: 0 <= f < MAX_FRAMES - 1 ==> Opens(r, f) && !WhollyInside(r, f)
  {
  }

  /** Some region of the map opens frame `f`. */
  ghost predicate Opened(regions: seq<Region>, f: int) {
    exists k :: 0 <= k < |regions| && Opens(regions[k], f)
  }

  /** Some region of the map wholly contains frame `f`. */
  ghost predicate Contained(regions: seq<Region>, f: int) {
    exists k :: 0 <= k < |regions| && WhollyInside(regions[k], f)
  }

  /** No wrap-around disturbs any region pmm_init considers. */
  ghost predicate PlainMap(regions: seq<Region>) {
    forall k :: 0 <= k < |regions| ==> IsRegion(regions[k]) && (Considered(regions[k]) ==> Undisturbed(regions[k]))
  }

  /** On such a map the frames opened are those some region contains. */
  lemma OpenedIsContained(regions: seq<Region>, f: int)
    requires PlainMap(regions) && 0 <= f < MAX_FRAMES
    ensures Opened(regions, f) <==> Contained(regions, f)
  {
    hide Opens, WhollyInside, Undisturbed, Considered;
    forall k | 0 <= k < |regions| ensures Opens(regions[k], f) <==> WhollyInside(regions[k], f) {
      OpensIsInside(regions[k], f);
    }
  }

  lemma OpensIsInside(r: Region, f: int)
    requires IsRegion(r) && (Considered(r) ==> Undisturbed(r)) && 0 <= f < MAX_FRAMES
    ensures Opens(r, f) <==> WhollyInside(r, f)
  {
    if Considered(r) {
      OpensUndisturbed(r, f);
    }
  }

  /** The frames below `n` that some region opens, each counted once. */
  ghost function CountOpened(regions: seq<Region>, n: nat): nat {
    if n == 0 then 0 else CountOpened(regions, n - 1) + if Opened(regions, n - 1) then 1 else 0
  }

  lemma {:induction false} CountsAgree(bitmap: seq<bv32>, regions: seq<Region>, n: nat)
    requires n <= 32 * |bitmap| && forall f :: 0 <= f < n ==> (!Used(bitmap, f) <==> Opened(regions, f))
    ensures CountFree(bitmap, n) == CountOpened(regions, n)
  {
    hide Used, Opened;
    if n > 0 {
      CountsAgree(bitmap, regions, n - 1);
    }
  }

  lemma NoneOpened(regions: seq<Region>)
    ensures forall f :: !Opened(regions[..0], f)
  {
  }

  lemma OnlyConsidered(r: Region)
    ensures !Considered(r) ==> forall f :: !Opens(r, f)
  {
  }

  lemma OpenedNext(regions: seq<Region>, k: nat, f: int)
    requires k < |regions|
    ensures Opened(regions[..k + 1], f) <==> Opened(regions[..k], f) || Opens(regions[k], f)
  {
    var a, b := regions[..k], regions[..k + 1];
    if Opened(a, f) {
      var j :| 0 <= j < |a| && Opens(a[j], f);
      assert b[j] == a[j];
    }
    if Opened(b, f) {
      var j :| 0 <= j < |b| && Opens(b[j], f);
      assert j < k ==> a[j] == b[j];
    }
    if Opens(regions[k], f) {
      assert b[k] == regions[k];
    }
  }

  // --- the allocator --------------------------------------------------------

  class FrameAllocator {
    const bitmap: array<bv32>
    var usableFrames: nat
    var freeFrames: nat
    var searchHint: nat

    /** The free counter is exact and every word below the hint is full. */
    ghost predicate Valid()
      reads this, bitmap
    {
      && bitmap.Length == MAX_FRAMES / 32
      && freeFrames == CountFree(bitmap[..], 32 * bitmap.Length)
      && searchHint < bitmap.Length
      && forall w :: 0 <= w < searchHint ==> bitmap[w] == 0xFFFF_FFFF
    }

    ghost predicate IsFree(f: int)
      reads bitmap
    {
      0 <= f < 32 * bitmap.Length && !Used(bitmap[..], f)
    }

    /** Everything starts reserved. */
    constructor ()
      ensures Valid() && fresh(bitmap) && freeFrames == 0 && usableFrames == 0
      ensures forall f :: !IsFree(f)
    {
      bitmap := new bv32[MAX_FRAMES / 32](_ => 0xFFFF_FFFF);
      usableFrames, freeFrames, searchHint := 0, 0, 0;
      new;
      forall f | 0 <= f < 32 * bitmap.Length ensures Used(bitmap[..], f) {
        WordFull(bitmap[..], f);
      }
      NoneFree(bitmap[..], 32 * bitmap.Length);
    }

    method MarkUsed(f: nat)
      requires f < 32 * bitmap.Length
      modifies bitmap
      ensures DiffersAt(old(bitmap[..]), bitmap[..], f) && Used(bitmap[..], f)
      ensures forall w :: 0 <= w < bitmap.Length && w != f / 32 ==> bitmap[w] == old(bitmap[w])
    {
      hide Used, BitAt, Shift, WithBit, WithoutBit;
      ghost var word := bitmap[f / 32];
      bitmap[f / 32] := WithBit(bitmap[f / 32], Shift(f % 32));
      forall t: bv32 | t < 32
        ensures BitAt(bitmap[f / 32], t) <==> if t == Shift(f % 32) then true else BitAt(word, t) {
        WithBitAt(word, Shift(f % 32), t);
      }
      StoredBit(old(bitmap[..]), f, bitmap[f / 32], true);
      assert bitmap[..] == old(bitmap[..])[f / 32 := bitmap[f / 32]];
    }

    method MarkFree(f: nat)
      requires f < 32 * bitmap.Length
      modifies bitmap
      ensures DiffersAt(old(bitmap[..]), bitmap[..], f) && !Used(bitmap[..], f)
      ensures forall w :: 0 <= w < bitmap.Length && w != f / 32 ==> bitmap[w] == old(bitmap[w])
    {
      hide Used, BitAt, Shift, WithBit, WithoutBit;
      ghost var word := bitmap[f / 32];
      bitmap[f / 32] := WithoutBit(bitmap[f / 32], Shift(f % 32));
      forall t: bv32 | t < 32
        ensures BitAt(bitmap[f / 32], t) <==> if t == Shift(f % 32) then false else BitAt(word, t) {
        WithoutBitAt(word, Shift(f % 32), t);
      }
      StoredBit(old(bitmap[..]), f, bitmap[f / 32], false);
      assert bitmap[..] == old(bitmap[..])[f / 32 := bitmap[f / 32]];
    }

    /** The counter is exact. */
    ghost predicate Counted()
      reads this, bitmap
    {
      bitmap.Length == MAX_FRAMES / 32 && freeFrames == CountFree(bitmap[..], 32 * bitmap.Length)
    }

    /** A free frame is marked and counted. */
    method Reserve(f: nat)
      requires Counted() && IsFree(f)
      modifies this`freeFrames, bitmap
      ensures Counted() && freeFrames == old(freeFrames) - 1
      ensures forall g :: IsFree(g) <==> old(IsFree(g)) && g != f
      ensures forall w :: 0 <= w < bitmap.Length && w != f / 32 ==> bitmap[w] == old(bitmap[w])
    {
      hide Used, BitAt, CountFree;
      ghost var before := bitmap[..];
      SomeFree(before, f, 32 * bitmap.Length);
      MarkUsed(f);
      CountAfterUse(before, bitmap[..], f, 32 * bitmap.Length);
      freeFrames := freeFrames - 1;
    }

    /** A used frame is unmarked and counted. */
    method Release(f: nat)
      requires Counted() && f < 32 * bitmap.Length && !IsFree(f)
      modifies this`freeFrames, bitmap
      ensures Counted() && freeFrames == old(freeFrames) + 1
      ensures forall g :: IsFree(g) <==> old(IsFree(g)) || g == f
      ensures forall w :: 0 <= w < bitmap.Length && w != f / 32 ==> bitmap[w] == old(bitmap[w])
    {
      hide Used, BitAt, CountFree;
      ghost var before := bitmap[..];
      MarkFree(f);
      assert DiffersAt(bitmap[..], before, f);
      CountAfterUse(bitmap[..], before, f, 32 * bitmap.Length);
      freeFrames := freeFrames + 1;
    }

    /** Takes the lowest clear bit of word `w`, the first that is not full. */
    method TakeIn(w: nat) returns (frame: nat)
      requires Valid() && searchHint <= w < bitmap.Length && freeFrames > 0 && bitmap[w] != 0xFFFF_FFFF
      requires forall v :: 0 <= v < w ==> bitmap[v] == 0xFFFF_FFFF
      modifies this`freeFrames, this`searchHint, bitmap
      ensures Valid() && IsLowestFree(old(bitmap[..]), frame) && freeFrames == old(freeFrames) - 1
      ensures forall f :: IsFree(f) <==> old(IsFree(f)) && f != frame
    {
      hide BitAt, Shift, CountFree, Used;
      var b := LowestClear(bitmap[w]);
      LowestInWord(bitmap[..], w, b);
      frame := w * 32 + b;
      Reserve(frame);
      searchHint := w;
    }

    /** pmm_alloc_frame: the lowest free frame whenever there is one. The
        rescan from the start cannot be reached. */
    method Alloc() returns (addr: u32)
      requires Valid()
      modifies this`freeFrames, this`searchHint, bitmap
      ensures Valid()
      ensures old(freeFrames) == 0 ==> addr == 0 && bitmap[..] == old(bitmap[..]) && freeFrames == 0
      ensures old(freeFrames) > 0 ==>
        && addr % 4096 == 0 && IsLowestFree(old(bitmap[..]), addr / 4096)
        && freeFrames == old(freeFrames) - 1
        && forall f :: IsFree(f) <==> old(IsFree(f)) && f != addr / 4096
    {
      hide CountFree, Used;
      if freeFrames == 0 {
        return 0;
      }
      var w := searchHint;
      while w < bitmap.Length
        invariant searchHint <= w <= bitmap.Length && bitmap[..] == old(bitmap[..])
        invariant freeFrames == old(freeFrames) && searchHint == old(searchHint)
        invariant forall v :: 0 <= v < w ==> bitmap[v] == 0xFFFF_FFFF
      {
        if bitmap[w] != 0xFFFF_FFFF {
          var frame := TakeIn(w);
          return frame * FRAME_SIZE;
        }
        w := w + 1;
      }
      AllFull(bitmap[..]);
      assert false;
    }

    /** pmm_free_frame: a used frame becomes free, a free one stays so. */
    method Free(addr: u32)
      requires Valid()
      modifies this`freeFrames, this`searchHint, bitmap
      ensures Valid()
      ensures forall f :: IsFree(f) <==> old(IsFree(f)) || f == addr / 4096
      ensures freeFrames == old(freeFrames) + if old(IsFree(addr / 4096)) then 0 else 1
    {
      hide Used, BitAt, CountFree;
      var f := addr / 4096;
      if Used(bitmap[..], f) {
        Release(f);
        if f / 32 < searchHint {
          searchHint := f / 32;
        }
      }
    }

    /** The regions' frames opened one by one. */
    method OpenRegion(r: Region)
      requires Valid() && searchHint == 0 && Considered(r)
      modifies this`freeFrames, this`usableFrames, bitmap
      ensures Valid()
      ensures forall f :: IsFree(f) <==> old(IsFree(f)) || (0 <= f < MAX_FRAMES && Opens(r, f))
      ensures usableFrames - freeFrames == old(usableFrames - freeFrames)
    {
      hide Used, BitAt, CountFree;
      var first, last := FirstFrame(r), RegionEnd(r) / 4096;
      var f := first;
      while f < last
        invariant first <= f <= Max(first, last) && Valid()
        invariant forall g :: IsFree(g) <==> old(IsFree(g)) || (first <= g < f && g < MAX_FRAMES)
        invariant usableFrames - freeFrames == old(usableFrames - freeFrames)
      {
        if Used(bitmap[..], f) {
          Release(f);
          usableFrames := usableFrames + 1;
        }
        f := f + 1;
      }
    }

    /** pmm_init: afterwards a frame is free exactly when it is above the first
        megabyte and some region of the map opens it, however regions overlap;
        usable_frames has counted every opened frame once. On a map without
        wrap-around those are the frames that lie wholly inside a region. */
    method Init(regions: seq<Region>)
      requires Valid() && searchHint == 0 && freeFrames == 0 && usableFrames == 0
      requires forall f :: !IsFree(f)
      modifies this`freeFrames, this`usableFrames, bitmap
      ensures Valid()
      ensures forall f :: IsFree(f) <==> LOW_FRAMES <= f < MAX_FRAMES && Opened(regions, f)
      ensures usableFrames == CountOpened(regions, MAX_FRAMES)
      ensures PlainMap(regions) ==> forall f :: IsFree(f) <==> LOW_FRAMES <= f < MAX_FRAMES && Contained(regions, f)
    {
      hide Used, BitAt, CountFree, Opens, Opened, CountOpened, Contained, PlainMap;
      var i := 0;
      NoneOpened(regions);
      while i < |regions|
        invariant 0 <= i <= |regions| && Valid()
        invariant forall f :: IsFree(f) <==> 0 <= f < MAX_FRAMES && Opened(regions[..i], f)
        invariant usableFrames == freeFrames
      {
        forall f ensures Opened(regions[..i + 1], f) <==> Opened(regions[..i], f) || Opens(regions[i], f) {
          OpenedNext(regions, i, f);
        }
        OnlyConsidered(regions[i]);
        if regions[i].kind == USABLE && regions[i].base < 0x1_0000_0000 {
          OpenRegion(regions[i]);
        }
        i := i + 1;
      }
      assert regions[..i] == regions;
      CountsAgree(bitmap[..], regions, MAX_FRAMES);
      var f := 0;
      while f < 0x10_0000 / FRAME_SIZE
        invariant 0 <= f <= LOW_FRAMES && Valid()
        invariant forall g :: IsFree(g) <==> f <= g < MAX_FRAMES && Opened(regions, g)
        invariant usableFrames == CountOpened(regions, MAX_FRAMES)
      {
        if !Used(bitmap[..], f) {
          Reserve(f);
        }
        f := f + 1;
      }
      forall g | PlainMap(regions) && 0 <= g < MAX_FRAMES ensures Opened(regions, g) <==> Contained(regions, g) {
        OpenedIsContained(regions, g);
      }
    }
  }
}
