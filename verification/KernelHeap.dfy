/** The kernel heap in memory: block headers embedded in an array of words,
    linked by address, proved against the block list of HeapList. */
module KernelHeap {
  import opened Bytes
  import opened HeapList

  /** The link to block `k`: its address, or 0 past the last block. */
  function Link(bl: seq<Block>, k: nat): int {
    if k < |bl| then Addr(bl[k].at) else 0
  }

  /** The header of block `k` holds its size in bytes, its flag and its link. */
  ghost predicate HasHeader(mem: seq<u32>, bl: seq<Block>, k: nat)
    requires k < |bl|
  {
    var b := bl[k];
    && b.End() <= |mem|
    && mem[b.at] == 4 * b.words && mem[b.at + 1] == (if b.free then 1 else 0) && mem[b.at + 2] == Link(bl, k + 1)
  }

  /** The words of memory represent the block list. */
  ghost predicate Represents(mem: seq<u32>, head: u32, bl: seq<Block>) {
    head == Link(bl, 0) && forall k :: 0 <= k < |bl| ==> HasHeader(mem, bl, k)
  }

  /** Word `w` belongs to a payload in use. */
  ghost predicate InPayload(live: seq<Block>, w: int) {
    exists i :: 0 <= i < |live| && live[i].at + 3 <= w < live[i].End()
  }

  /** Every other block ends before block `k` starts or starts after it ends. */
  lemma BlocksApart(bl: seq<Block>, start: nat, stop: nat, k: nat)
    requires Tiles(bl, start, stop) && k < |bl|
    ensures forall i :: 0 <= i < k ==> bl[i].End() <= bl[k].at
    ensures forall i :: k < i < |bl| ==> bl[k].End() <= bl[i].at
    ensures start <= bl[k].at && bl[k].End() <= stop
  {
    forall i | 0 <= i < k ensures bl[i].End() <= bl[k].at {
      TilesApart(bl, start, stop, i, k);
    }
    forall i | k < i < |bl| ensures bl[k].End() <= bl[i].at {
      TilesApart(bl, start, stop, k, i);
    }
    TilesWithin(bl, start, stop, k);
  }

  /** Headers, and everything inside free blocks, lie outside the payloads in use. */
  lemma NotInPayload(bl: seq<Block>, start: nat, stop: nat, k: nat, w: nat)
    requires Tiles(bl, start, stop) && k < |bl|
    requires bl[k].at <= w < bl[k].at + 3 || (bl[k].free && bl[k].at <= w < bl[k].End())
    ensures !InPayload(Live(bl), w)
  {
    var live := Live(bl);
    BlocksApart(bl, start, stop, k);
    forall i | 0 <= i < |live| ensures !(live[i].at + 3 <= w < live[i].End()) {
      LiveMember(bl, live[i]);
      var j :| 0 <= j < |bl| && bl[j] == live[i];
    }
  }

  /** Nothing in use lies past the end of the tiling. */
  lemma TailUnused(bl: seq<Block>, stop: nat)
    requires Tiles(bl, 0, stop)
    ensures forall x :: stop <= x ==> !InPayload(Live(bl), x)
  {
    var live := Live(bl);
    forall i | 0 <= i < |live| ensures live[i].End() <= stop {
      LiveMember(bl, live[i]);
      var j :| 0 <= j < |bl| && bl[j] == live[i];
      TilesWithin(bl, 0, stop, j);
    }
  }

  lemma FreeBlockUnused(bl: seq<Block>, stop: nat, k: nat)
    requires Tiles(bl, 0, stop) && k < |bl| && bl[k].free
    ensures forall x :: bl[k].at <= x < bl[k].End() ==> !InPayload(Live(bl), x)
  {
    forall x | bl[k].at <= x < bl[k].End() ensures !InPayload(Live(bl), x) {
      NotInPayload(bl, 0, stop, k, x);
    }
  }

  lemma TakenWhole(bl: seq<Block>, k: nat, want: nat)
    requires k < |bl| && want <= bl[k].words < want + 5
    ensures Taken(bl, k, want) == bl[k := bl[k].(free := false)]
  {
  }

  /** Payloads in use do not overlap. */
  lemma PayloadsDisjoint(bl: seq<Block>, stop: nat, i: nat, j: nat)
    requires Tiles(bl, 0, stop) && i < |bl| && j < |bl| && i != j
    ensures bl[i].End() <= bl[j].at || bl[j].End() <= bl[i].at
  {
    if i < j {
      TilesApart(bl, 0, stop, i, j);
    } else {
      TilesApart(bl, 0, stop, j, i);
    }
  }

  // --- what each store does to the represented list -------------------------

  /** Two memories agree except possibly on words from..to. */
  ghost predicate SameOutside(mem: seq<u32>, after: seq<u32>, from: nat, to: nat) {
    |after| == |mem| && forall w :: 0 <= w < |mem| && !(from <= w < to) ==> after[w] == mem[w]
  }

  lemma OtherHeader(mem: seq<u32>, after: seq<u32>, bl: seq<Block>, i: nat, out: seq<Block>, j: nat, from: nat, to: nat)
    requires i < |bl| && j < |out| && out[j] == bl[i] && Link(out, j + 1) == Link(bl, i + 1)
    requires HasHeader(mem, bl, i) && SameOutside(mem, after, from, to)
    requires bl[i].End() <= from || to <= bl[i].at
    ensures HasHeader(after, out, j)
  {
  }

  /** Setting the flag of block `k`. */
  lemma FlagStored(mem: seq<u32>, after: seq<u32>, head: u32, bl: seq<Block>, stop: nat, k: nat, free: bool)
    requires Represents(mem, head, bl) && Tiles(bl, 0, stop) && k < |bl| && bl[k].at + 2 < |mem|
    requires SameOutside(mem, after, bl[k].at + 1, bl[k].at + 2) && after[bl[k].at + 1] == if free then 1 else 0
    ensures Represents(after, head, bl[k := bl[k].(free := free)])
    ensures Tiles(bl[k := bl[k].(free := free)], 0, stop)
  {
    assert HasHeader(mem, bl, k);
    BlocksApart(bl, 0, stop, k);
    var out := bl[k := bl[k].(free := free)];
    forall i | 0 <= i < |out| ensures HasHeader(after, out, i) {
      assert HasHeader(mem, bl, i);
    }
  }

  /** The list after block `k` absorbed its successor. */
  ghost function Absorbed(bl: seq<Block>, k: nat): seq<Block>
    requires k + 1 < |bl|
  {
    bl[..k] + [Merged(bl[k], bl[k + 1])] + bl[k + 2..]
  }

  lemma AbsorbedTiles(bl: seq<Block>, stop: nat, k: nat)
    requires Tiles(bl, 0, stop) && k + 1 < |bl|
    ensures Tiles(Absorbed(bl, k), 0, stop)
    ensures LastRoom(bl) ==> LastRoom(Absorbed(bl, k))
  {
    assert bl[k + 1].at == bl[k].End();
  }

  lemma AbsorbedLive(bl: seq<Block>, k: nat)
    requires k + 1 < |bl| && bl[k].free && bl[k + 1].free
    ensures Live(Absorbed(bl, k)) == Live(bl)
  {
    var m := [Merged(bl[k], bl[k + 1])];
    LiveConcat(bl[..k], m);
    LiveConcat(bl[..k] + m, bl[k + 2..]);
    var two := [bl[k], bl[k + 1]];
    assert bl == bl[..k] + two + bl[k + 2..];
    LiveConcat(bl[..k], two);
    LiveConcat(bl[..k] + two, bl[k + 2..]);
    assert two[1..] == [bl[k + 1]] && Live(m) == [] && Live(two[1..]) == [];
  }

  /** Enlarging block `k` over its free successor and unlinking that successor. */
  lemma AbsorbStored(mem: seq<u32>, after: seq<u32>, head: u32, bl: seq<Block>, stop: nat, k: nat)
    requires Represents(mem, head, bl) && Tiles(bl, 0, stop)
    requires k + 1 < |bl| && bl[k].free && bl[k + 1].free && bl[k + 1].End() <= |mem|
    requires SameOutside(mem, after, bl[k].at, bl[k].at + 3)
    requires after[bl[k].at] == 4 * Merged(bl[k], bl[k + 1]).words && after[bl[k].at + 1] == mem[bl[k].at + 1]
    requires after[bl[k].at + 2] == mem[bl[k + 1].at + 2]
    ensures Represents(after, head, Absorbed(bl, k))
  {
    assert HasHeader(mem, bl, k) && HasHeader(mem, bl, k + 1);
    BlocksApart(bl, 0, stop, k);
    var out := Absorbed(bl, k);
    forall i | 0 <= i < |out| ensures HasHeader(after, out, i) {
      if i < k {
        OtherHeader(mem, after, bl, i, out, i, bl[k].at, bl[k].at + 3);
      } else if i > k {
        OtherHeader(mem, after, bl, i + 1, out, i, bl[k].at, bl[k].at + 3);
      } else {
        assert Link(out, k + 1) == Link(bl, k + 2) && bl[k + 1].at == bl[k].End();
      }
    }
  }

  /** Carving `want` words off the front of free block `k`, the rest becoming a
      free block of its own. */
  lemma SplitStored(mem: seq<u32>, after: seq<u32>, head: u32, bl: seq<Block>, stop: nat, k: nat, want: nat)
    requires Represents(mem, head, bl) && Tiles(bl, 0, stop)
    requires k < |bl| && bl[k].free && bl[k].words >= want + 5 && bl[k].End() <= |mem|
    requires SameOutside(mem, after, bl[k].at, bl[k].End())
    requires var a, r := bl[k].at, bl[k].at + 3 + want;
      && after[a] == 4 * want && after[a + 1] == 0 && after[a + 2] == Addr(r)
      && after[r] == 4 * (bl[k].words - want - 3) && after[r + 1] == 1 && after[r + 2] == mem[a + 2]
    ensures Represents(after, head, Taken(bl, k, want))
  {
    hide Taken, Tiles, HasHeader;
    assert HasHeader(mem, bl, k);
    BlocksApart(bl, 0, stop, k);
    var b, out := bl[k], Taken(bl, k, want);
    TakenIndex(bl, k, want, 0);
    SplitHeaders(mem, after, bl, k, want);
    forall i | 0 <= i < |out| && i != k && i != k + 1 ensures HasHeader(after, out, i) {
      TakenIndex(bl, k, want, i);
      TakenLink(bl, k, want, i);
      OtherHeader(mem, after, bl, if i < k then i else i - 1, out, i, b.at, b.End());
    }
  }

  /** The two headers a split writes. */
  lemma SplitHeaders(mem: seq<u32>, after: seq<u32>, bl: seq<Block>, k: nat, want: nat)
    requires k < |bl| && bl[k].free && bl[k].words >= want + 5 && bl[k].End() <= |mem| == |after|
    requires HasHeader(mem, bl, k)
    requires var a, r := bl[k].at, bl[k].at + 3 + want;
      && after[a] == 4 * want && after[a + 1] == 0 && after[a + 2] == Addr(r)
      && after[r] == 4 * (bl[k].words - want - 3) && after[r + 1] == 1 && after[r + 2] == mem[a + 2]
    ensures k + 1 < |Taken(bl, k, want)|
    ensures HasHeader(after, Taken(bl, k, want), k) && HasHeader(after, Taken(bl, k, want), k + 1)
  {
    hide Taken;
    TakenIndex(bl, k, want, 0);
    TakenIndex(bl, k, want, k);
    TakenIndex(bl, k, want, k + 1);
    TakenLink(bl, k, want, k);
    TakenLink(bl, k, want, k + 1);
  }

  /** Where the blocks of a split list come from. */
  lemma TakenIndex(bl: seq<Block>, k: nat, want: nat, i: nat)
    requires k < |bl| && bl[k].words >= want + 5 && i <= |bl|
    ensures |Taken(bl, k, want)| == |bl| + 1
    ensures Taken(bl, k, want)[i] ==
      if i < k then bl[i]
      else if i == k then Block(bl[k].at, want, false)
      else if i == k + 1 then Block(bl[k].at + 3 + want, bl[k].words - want - 3, true)
      else bl[i - 1]
  {
  }

  lemma TakenLink(bl: seq<Block>, k: nat, want: nat, i: nat)
    requires k < |bl| && bl[k].words >= want + 5 && i <= |bl|
    ensures Link(Taken(bl, k, want), i + 1) ==
      if i < k then Link(bl, i + 1) else if i == k then Addr(bl[k].at + 3 + want) else Link(bl, i)
  {
    TakenIndex(bl, k, want, i);
    if i + 1 < |Taken(bl, k, want)| {
      TakenIndex(bl, k, want, i + 1);
    }
  }

  /** Linking a new last block behind the present ones. */
  lemma AppendStored(mem: seq<u32>, after: seq<u32>, head: u32, bl: seq<Block>, stop: nat, words: nat)
    requires Represents(mem, head, bl) && Tiles(bl, 0, stop) && |bl| > 0
    requires stop + 3 + words <= |mem| == |after| && bl[|bl| - 1].End() <= |mem|
    requires after[stop] == 4 * words && after[stop + 1] == 1 && after[stop + 2] == 0
    requires after[bl[|bl| - 1].at + 2] == Addr(stop)
    requires forall w :: 0 <= w < |mem| && !(stop <= w < stop + 3) && w != bl[|bl| - 1].at + 2 ==> after[w] == mem[w]
    ensures Represents(after, head, bl + [Block(stop, words, true)])
  {
    var last, out := |bl| - 1, bl + [Block(stop, words, true)];
    assert HasHeader(mem, bl, last);
    BlocksApart(bl, 0, stop, last);
    forall i | 0 <= i < |out| ensures HasHeader(after, out, i) {
      if i < last {
        assert HasHeader(mem, bl, i);
        assert out[i] == bl[i] && Link(out, i + 1) == Link(bl, i + 1);
      }
    }
  }

  /** The first block of all. */
  lemma FirstStored(mem: seq<u32>, after: seq<u32>, bl: seq<Block>, stop: nat, words: nat)
    requires Represents(mem, 0, bl) && Tiles(bl, 0, stop) && stop + 3 + words <= |after|
    requires after[stop] == 4 * words && after[stop + 1] == 1 && after[stop + 2] == 0
    ensures Addr(stop) >= 0 && bl == []
    ensures Addr(stop) < 0x1_0000_0000 ==> Represents(after, Addr(stop), bl + [Block(stop, words, true)])
  {
  }

  lemma OneTile(b: Block, stop: nat)
    requires b.End() == stop
    ensures Tiles([b], b.at, stop)
  {
  }

  /** The list is empty exactly when its head is 0. */
  lemma NoBlocks(mem: seq<u32>, head: u32, bl: seq<Block>, stop: nat)
    requires Represents(mem, head, bl) && Tiles(bl, 0, stop)
    ensures head == 0 <==> |bl| == 0
    ensures |bl| > 0 ==> bl[|bl| - 1].End() <= stop
  {
    if |bl| > 0 {
      TilesWithin(bl, 0, stop, |bl| - 1);
    }
  }

  lemma AlignedTo8(size: u32)
    ensures Align8(size) % 4 == 0
  {
    var q := (size + 7) % 0x1_0000_0000 / 8;
    assert Align8(size) == 4 * (2 * q);
  }

  lemma GrowthKeepsLive(h: Heap, want: u32)
    requires HeapOk(h) && InWindow(h, want)
    ensures Live(Expanded(h, want).blocks) == Live(h.blocks)
  {
    ExpandedOk(h, want);
  }

  /** What is found at the address of block `k`. */
  lemma AtBlock(mem: seq<u32>, head: u32, bl: seq<Block>, stop: nat, k: nat)
    requires Represents(mem, head, bl) && Tiles(bl, 0, stop) && stop <= HEAP_WORDS == |mem| && k <= |bl|
    requires LastRoom(bl)
    ensures k == 0 ==> head == Link(bl, 0)
    ensures Link(bl, k) == 0 <==> k == |bl|
    ensures k < |bl| ==>
      && HasHeader(mem, bl, k) && 0 <= Link(bl, k) < Link(bl, k) + 12 < 0x1_0000_0000
      && (Link(bl, k) - HEAP_BASE) / 4 == bl[k].at && bl[k].End() <= stop
  {
    if k < |bl| {
      assert HasHeader(mem, bl, k);
      TilesWithin(bl, 0, stop, k);
      if k + 1 < |bl| {
        TilesApart(bl, 0, stop, k, |bl| - 1);
        TilesWithin(bl, 0, stop, |bl| - 1);
      }
    }
  }

  lemma Successor(bl: seq<Block>, start: nat, stop: nat, k: nat)
    requires Tiles(bl, start, stop) && k + 1 < |bl|
    ensures bl[k + 1].at == bl[k].End()
  {
  }

  /** Coalescing proceeds by absorbing a free pair in place ... */
  lemma MergeStep(bl: seq<Block>, k: nat)
    requires k + 1 < |bl| && bl[k].free && bl[k + 1].free
    ensures k < |Absorbed(bl, k)| == |bl| - 1 && Absorbed(bl, k)[k].at == bl[k].at
    ensures bl[..k] + Coalesced(bl[k..]) == Absorbed(bl, k)[..k] + Coalesced(Absorbed(bl, k)[k..])
  {
    var out := Absorbed(bl, k);
    assert out[..k] == bl[..k] && out[k..] == [Merged(bl[k], bl[k + 1])] + bl[k..][2..];
  }

  /** ... or by moving on past a block that is not followed by a free pair. */
  lemma KeepStep(bl: seq<Block>, k: nat)
    requires k + 1 < |bl| && !(bl[k].free && bl[k + 1].free)
    ensures bl[..k] + Coalesced(bl[k..]) == bl[..k + 1] + Coalesced(bl[k + 1..])
  {
    CoalescedKeeps(bl[k..]);
    hide Coalesced;
    assert bl[k..][1..] == bl[k + 1..] && bl[..k + 1] == bl[..k] + [bl[k]];
  }

  lemma CoalescedKeeps(bl: seq<Block>)
    requires |bl| > 1 && !(bl[0].free && bl[1].free)
    ensures Coalesced(bl) == [bl[0]] + Coalesced(bl[1..])
  {
  }

  lemma LastBlock(bl: seq<Block>, k: nat)
    requires k <= |bl| <= k + 1
    ensures bl[..k] + Coalesced(bl[k..]) == bl
  {
    assert bl[..k] + bl[k..] == bl;
  }

  /** Progress of the first-fit scan at block `k`. */
  lemma ScanStep(bl: seq<Block>, k: nat, want: nat)
    requires k <= |bl| && FirstFit(bl, want) == k + FirstFit(bl[k..], want)
    ensures k == |bl| ==> FirstFit(bl, want) == |bl|
    ensures k < |bl| && bl[k].free && bl[k].words >= want ==> FirstFit(bl, want) == k
    ensures k < |bl| && !(bl[k].free && bl[k].words >= want) ==>
      FirstFit(bl, want) == k + 1 + FirstFit(bl[k + 1..], want)
  {
    if k < |bl| {
      assert bl[k..][1..] == bl[k + 1..];
    }
  }

  // --- the allocator --------------------------------------------------------

  /** The slot of page `i` past a mapping of `mapped` bytes. */
  lemma SlotOfPage(mapped: nat, i: nat)
    ensures (mapped + 4096 * i) / 0x40_0000 == (mapped / 4096 + i) / 1024
    ensures mapped / 4 / 1024 == mapped / 4096
  {
  }

  /** `i` pages of the growth `g` are done. */
  ghost predicate Remaining(g: Growth, page: nat, frames: nat, tables: set<nat>, want: nat, i: nat) {
    var rest := Grown(page, frames, tables, want);
    rest.pages + i == g.pages && rest.frames == g.frames && rest.tables == g.tables
  }

  lemma GrownStep(g: Growth, page: nat, frames: nat, tables: set<nat>, want: nat, i: nat)
    requires want > 0 && frames > 0 && Remaining(g, page, frames, tables, want, i)
    ensures var left := if page / 1024 in tables || frames == 1 then frames - 1 else frames - 2;
      Remaining(g, page + 1, left, if page / 1024 in tables then tables else tables + {page / 1024}, want - 1, i + 1)
  {
    if page / 1024 in tables {
      assert tables + {page / 1024} == tables;
    }
  }

  lemma GrowthStarts(page: nat, frames: nat, tables: set<nat>, want: nat)
    ensures Remaining(Grown(page, frames, tables, want), page, frames, tables, want, 0)
  {
  }

  lemma GrowthDone(g: Growth, page: nat, frames: nat, tables: set<nat>, want: nat, i: nat)
    requires (want == 0 || frames == 0) && Remaining(g, page, frames, tables, want, i)
    ensures g == Growth(i, frames, tables)
  {
  }

  /** The heap: the words of its virtual window, the list head, the bytes
      mapped, the frames the physical allocator can still hand out, and the
      4 MB slots of the window whose page-directory entry is present. */
  class KernelHeap {
    const mem: array<u32>
    var head: u32
    var mapped: u32
    var frames: nat
    var tables: set<nat>
    ghost var blocks: seq<Block>

    ghost function State(): Heap
      reads this
    {
      Heap(blocks, mapped / 4, frames, tables)
    }

    /** Headers and links in memory are consistent with the block list. */
    ghost predicate Linked()
      reads this, mem
    {
      && mem.Length == HEAP_WORDS && mapped % 4 == 0
      && Tiles(blocks, 0, mapped / 4) && LastRoom(blocks) && mapped / 4 <= HEAP_WORDS
      && Represents(mem[..], head, blocks)
    }

    ghost predicate Valid()
      reads this, mem
    {
      Linked() && NoAdjacentFree(blocks)
    }

    /** Words of the payloads in `live` are as before. */
    twostate predicate Untouched(live: seq<Block>)
      reads mem
    {
      forall w :: 0 <= w < mem.Length && InPayload(live, w) ==> mem[w] == old(mem[w])
    }

    constructor (frames: nat, tables: set<nat>)
      ensures Valid() && State() == Heap([], 0, frames, tables) && fresh(mem)
    {
      mem := new u32[HEAP_WORDS];
      head, mapped, this.frames, this.tables := 0, 0, frames, tables;
      blocks := [];
    }

    /** The word a block address points to. */
    static function WordOf(b: u32): int {
      (b - HEAP_BASE) / 4
    }

    /** Merges block `k` at word `w` with its free successor at word `n`. */
    method AbsorbNext(w: nat, n: nat, ghost k: nat)
      requires Linked() && k + 1 < |blocks| && blocks[k].free && blocks[k + 1].free
      requires w == blocks[k].at && n == blocks[k + 1].at
      modifies this`blocks, mem
      ensures Linked() && blocks == Absorbed(old(blocks), k) && Live(blocks) == Live(old(blocks))
      ensures Untouched(Live(old(blocks)))
    {
      hide Tiles, Absorbed, Live, InPayload;
      ghost var before, stop := mem[..], mapped / 4;
      BlocksApart(blocks, 0, stop, k);
      BlocksApart(blocks, 0, stop, k + 1);
      assert HasHeader(before, blocks, k) && HasHeader(before, blocks, k + 1);
      mem[w] := mem[w] + 12 + mem[n];
      mem[w + 2] := mem[n + 2];
      AbsorbStored(before, mem[..], head, blocks, stop, k);
      AbsorbedTiles(blocks, stop, k);
      AbsorbedLive(blocks, k);
      NotInPayload(blocks, 0, stop, k, w);
      NotInPayload(blocks, 0, stop, k, w + 2);
      blocks := Absorbed(blocks, k);
    }

    /** Merges every pair of address-adjacent free blocks. */
    method Coalesce()
      requires Linked()
      modifies this`blocks, mem
      ensures Valid() && blocks == Coalesced(old(blocks))
      ensures Untouched(Live(old(blocks)))
    {
      hide Tiles, Live, InPayload, Represents, Coalesced, Absorbed, NoAdjacentFree;
      CoalescedShape(blocks, 0, mapped / 4);
      var b: u32 := head;
      ghost var k := 0;
      AtBlock(mem[..], head, blocks, mapped / 4, 0);
      while b != 0 && mem[WordOf(b) + 2] != 0
        invariant Linked() && k <= |blocks| && b == Link(blocks, k)
        invariant b != 0 ==> k < |blocks| && WordOf(b) == blocks[k].at && HasHeader(mem[..], blocks, k)
        invariant Coalesced(old(blocks)) == blocks[..k] + Coalesced(blocks[k..])
        invariant Live(blocks) == Live(old(blocks)) && Untouched(Live(old(blocks)))
        decreases |blocks| - k
      {
        var w := WordOf(b);
        var next := mem[w + 2];
        AtBlock(mem[..], head, blocks, mapped / 4, k + 1);
        var n := WordOf(next);
        if mem[w + 1] != 0 && mem[n + 1] != 0 && b + 12 + mem[w] == next {
          ghost var was := blocks;
          AbsorbNext(w, n, k);
          MergeStep(was, k);
          AtBlock(mem[..], head, blocks, mapped / 4, k);
        } else {
          Successor(blocks, 0, mapped / 4, k);
          KeepStep(blocks, k);
          b, k := next, k + 1;
        }
      }
      LastBlock(blocks, k);
    }

    /** What a large free block has left over gets a header of its own. */
    method SplitBlock(w: nat, want: u32, ghost k: nat)
      requires Linked() && k < |blocks| && blocks[k].free && w == blocks[k].at && blocks[k].End() <= mem.Length
      requires want % 4 == 0 && want / 4 + 5 <= blocks[k].words
      modifies mem
      ensures Represents(mem[..], head, Taken(blocks, k, want / 4))
      ensures SameOutside(old(mem[..]), mem[..], blocks[k].at, blocks[k].End())
    {
      hide Tiles, Taken, Represents, LastRoom;
      ghost var before := mem[..];
      AtBlock(before, head, blocks, mapped / 4, k);
      var r := w + 3 + want / 4;
      mem[r] := mem[w] - want - 12;
      mem[r + 1] := 1;
      mem[r + 2] := mem[w + 2];
      mem[w] := want;
      mem[w + 2] := Addr(r);
      mem[w + 1] := 0;
      SplitStored(before, mem[..], head, blocks, mapped / 4, k, want / 4);
    }

    /** Gives out free block `k` at word `w`, splitting off what is left over. */
    method GiveOut(w: nat, want: u32, ghost k: nat)
      requires Linked() && k < |blocks| && blocks[k].free && w == blocks[k].at
      requires want % 4 == 0 && want / 4 <= blocks[k].words
      modifies this`blocks, mem
      ensures Linked() && blocks == Taken(old(blocks), k, want / 4)
      ensures Untouched(Live(old(blocks)))
    {
      hide Tiles, Live, InPayload, Taken, Represents;
      ghost var before, stop := mem[..], mapped / 4;
      AtBlock(before, head, blocks, stop, k);
      FreeBlockUnused(blocks, stop, k);
      TakenTiles(blocks, k, want / 4, 0, stop);
      if mem[w] >= want + 12 + 8 {
        SplitBlock(w, want, k);
      } else {
        mem[w + 1] := 0;
        FlagStored(before, mem[..], head, blocks, stop, k, false);
        TakenWhole(blocks, k, want / 4);
      }
      blocks := Taken(blocks, k, want / 4);
    }

    /** The first-fit scan of kmalloc: 0 when no free block is large enough. */
    method Scan(want: u32) returns (b: u32, ghost k: nat)
      requires Valid() && want % 4 == 0
      ensures k == FirstFit(blocks, want / 4) <= |blocks| && (b == 0 <==> k == |blocks|)
      ensures k < |blocks| ==> b == Addr(blocks[k].at) && WordOf(b) == blocks[k].at && b + 12 < 0x1_0000_0000
      ensures k < |blocks| ==> blocks[k].free && want / 4 <= blocks[k].words
    {
      hide Tiles, Live, Represents, NoAdjacentFree, FirstFit;
      b, k := head, 0;
      AtBlock(mem[..], head, blocks, mapped / 4, 0);
      assert blocks[0..] == blocks;
      while b != 0
        invariant k <= |blocks| && b == Link(blocks, k) && (b == 0 <==> k == |blocks|)
        invariant b != 0 ==> WordOf(b) == blocks[k].at && HasHeader(mem[..], blocks, k) && b + 12 < 0x1_0000_0000
        invariant FirstFit(blocks, want / 4) == k + FirstFit(blocks[k..], want / 4)
        decreases |blocks| - k
      {
        var w := WordOf(b);
        ScanStep(blocks, k, want / 4);
        if mem[w + 1] != 0 && mem[w] >= want {
          return;
        }
        AtBlock(mem[..], head, blocks, mapped / 4, k + 1);
        b, k := mem[w + 2], k + 1;
      }
      ScanStep(blocks, k, want / 4);
    }

    /** The block the scan finds is given out. */
    method TakeFit(want: u32) returns (ptr: u32)
      requires Valid() && want % 4 == 0
      modifies this`blocks, mem
      ensures Valid() && Untouched(Live(old(blocks)))
      ensures ptr == 0 <==> !old(Fits(State(), want))
      ensures if old(Fits(State(), want)) then (State(), ptr) == old(TakeFirst(State(), want))
        else State() == old(State())
    {
      hide Tiles, Live, InPayload, Represents, Taken, NoAdjacentFree, FirstFit;
      ghost var k;
      var b;
      b, k := Scan(want);
      if b == 0 {
        return 0;
      }
      TakenApart(blocks, k, want / 4);
      GiveOut(WordOf(b), want, k);
      ptr := b + 12;
    }

    /** kfree of a live payload, or of 0; payloads still in use keep their words. */
    method Kfree(ptr: u32, ghost k: nat)
      requires Valid()
      requires ptr != 0 ==> k < |blocks| && !blocks[k].free && ptr == Addr(blocks[k].at + 3)
      modifies this`blocks, mem
      ensures Valid() && Untouched(Live(blocks))
      ensures State() == if ptr == 0 then old(State()) else Free(old(State()), k)
    {
      hide Tiles, InPayload, Represents, NoAdjacentFree, Coalesced, Live;
      if ptr == 0 {
        return;
      }
      ghost var before, stop := mem[..], mapped / 4;
      AtBlock(before, head, blocks, stop, k);
      var w := WordOf(ptr - 12);
      mem[w + 1] := 1;
      FlagStored(before, mem[..], head, blocks, stop, k, true);
      blocks := blocks[k := blocks[k].(free := true)];
      NotInPayload(blocks, 0, stop, k, w + 1);
      CoalescedShape(blocks, 0, stop);
      Coalesce();
    }

    /** Writes the header of a new free block at the end of the mapping and
        hooks it behind the last one. */
    method Append(grown: u32, ghost pages: nat)
      requires Linked() && pages > 0 && grown == 4096 * pages && mapped / 4 + 1024 * pages <= HEAP_WORDS
      modifies this`head, this`mapped, this`blocks, mem
      ensures Linked() && mapped == old(mapped) + grown
      ensures blocks == old(blocks) + [Block(old(mapped) / 4, 1024 * pages - 3, true)]
      ensures Live(blocks) == Live(old(blocks)) && Untouched(Live(blocks))
    {
      hide InPayload, Live, NoAdjacentFree, Tiles, Represents;
      ghost var before, stop, was := mem[..], mapped / 4, blocks;
      var b: u32 := HEAP_BASE + mapped;
      var w := WordOf(b);
      ghost var new_ := Block(stop, 1024 * pages - 3, true);
      OneTile(new_, stop + 1024 * pages);
      TilesConcat(blocks, [new_], 0, stop, stop + 1024 * pages);
      NoBlocks(before, head, blocks, stop);
      FreeTail(was, new_);
      TailUnused(was, stop);
      mapped := mapped + grown;
      mem[w] := grown - 12;
      mem[w + 1] := 1;
      mem[w + 2] := 0;
      if head == 0 {
        head := b;
        FirstStored(before, mem[..], was, stop, 1024 * pages - 3);
      } else {
        var last := LastWord(was, stop, before);
        mem[last + 2] := b;
        AppendStored(before, mem[..], head, was, stop, 1024 * pages - 3);
        NotInPayload(was, 0, stop, |was| - 1, last + 2);
      }
      blocks := was + [new_];
    }

    /** The word of the last block, found by following the links. */
    method LastWord(ghost bl: seq<Block>, ghost stop: nat, ghost before: seq<u32>) returns (w: nat)
      requires |before| == mem.Length == HEAP_WORDS && stop < HEAP_WORDS
      requires Represents(before, head, bl) && Tiles(bl, 0, stop) && LastRoom(bl) && |bl| > 0
      requires forall x :: 0 <= x < stop ==> mem[x] == before[x]
      ensures w == bl[|bl| - 1].at && w + 2 < stop
    {
      hide Represents, Tiles;
      var last: u32 := head;
      ghost var k := 0;
      AtBlock(before, head, bl, stop, 0);
      while mem[WordOf(last) + 2] != 0
        invariant k < |bl| && last == Link(bl, k) && WordOf(last) == bl[k].at && bl[k].End() <= stop
        invariant HasHeader(before, bl, k)
        decreases |bl| - k
      {
        AtBlock(before, head, bl, stop, k + 1);
        last, k := mem[WordOf(last) + 2], k + 1;
      }
      AtBlock(before, head, bl, stop, k + 1);
      w := WordOf(last);
    }

    /** The loop of expand: a page takes a frame, and paging_map one more for
        the page table of a slot that has none; with no frame left for it the
        table goes to address 0. */
    method MapPages(pages: nat) returns (grown: nat)
      modifies this`frames, this`tables
      ensures var g := Grown(mapped / 4096, old(frames), old(tables), pages);
        grown == 4096 * g.pages && frames == g.frames && tables == g.tables
    {
      hide Grown, Remaining;
      ghost var g := Grown(mapped / 4096, frames, tables, pages);
      GrowthStarts(mapped / 4096, frames, tables, pages);
      var i := 0;
      grown := 0;
      while i < pages && frames > 0
        invariant 0 <= i <= pages && grown == 4096 * i
        invariant Remaining(g, mapped / 4096 + i, frames, tables, pages - i, i)
      {
        GrownStep(g, mapped / 4096 + i, frames, tables, pages - i, i);
        SlotOfPage(mapped, i);
        frames := frames - 1;
        var slot := (mapped + grown) / 0x40_0000;
        if slot !in tables {
          if frames > 0 {
            frames := frames - 1;
          }
          tables := tables + {slot};
        }
        grown, i := grown + 4096, i + 1;
      }
      GrowthDone(g, mapped / 4096 + i, frames, tables, pages - i, i);
    }

    /** expand, where the pages do not run past the end of the address space. */
    method Expand(bytes: u32) returns (ok: bool)
      requires Valid() && InWindow(State(), bytes)
      modifies this`head, this`mapped, this`blocks, this`frames, this`tables, mem
      ensures Valid() && State() == Expanded(old(State()), bytes) && ok == (old(frames) > 0)
      ensures !ok ==> State() == old(State())
      ensures Untouched(Live(old(blocks)))
    {
      hide InPayload, Live, NoAdjacentFree, Tiles, Represents, Grown;
      var pages := (bytes + 12 + 4096 - 1) % 0x1_0000_0000 / 4096;
      if pages < 4 {
        pages := 4;
      }
      GrownAccounts(mapped / 4096, frames, tables, pages);
      SlotOfPage(mapped, 0);
      var grown := MapPages(pages);
      if grown == 0 {
        return false;
      }
      Append(grown, grown / 4096);
      Coalesce();
      return true;
    }

    /** kmalloc, unless it would grow the heap past the end of the address space. */
    method Kmalloc(size: u32) returns (ptr: u32)
      requires Valid() && StaysInWindow(State(), size)
      modifies this`head, this`mapped, this`blocks, this`frames, this`tables, mem
      ensures Valid() && (State(), ptr) == Malloc(old(State()), size)
      ensures Untouched(Live(old(blocks)))
    {
      hide InPayload, NoAdjacentFree, Tiles, Represents, Fits, TakeFirst, Expanded, Live, Align8;
      if size == 0 {
        return 0;
      }
      var want := Align8(size);
      AlignedTo8(size);
      var attempt := 0;
      ghost var h := State();
      ghost var g := Expanded(h, want);
      while attempt < 2
        invariant 0 <= attempt <= 2 && Valid() && Untouched(Live(old(blocks))) && Live(blocks) == Live(old(blocks))
        invariant attempt == 0 ==> State() == h
        invariant attempt > 0 ==> h.frames > 0 && !Fits(h, want)
        invariant attempt == 1 ==> State() == g
        invariant attempt == 2 ==> !Fits(g, want) && State() == Expanded(g, want)
      {
        ptr := TakeFit(want);
        if ptr != 0 {
          return;
        }
        GrowthKeepsLive(State(), want);
        var ok := Expand(want);
        if !ok {
          return 0;
        }
        attempt := attempt + 1;
      }
      return 0;
    }

    /** heap_used_bytes; with the free payloads and 12 bytes a block it accounts
        for everything mapped. */
    method UsedBytes() returns (used: nat)
      requires Valid()
      ensures used == 4 * Words(blocks, false)
      ensures used + 4 * Words(blocks, true) + 12 * |blocks| == mapped
    {
      hide Tiles, Represents, NoAdjacentFree;
      WordsConserved(blocks, 0, mapped / 4);
      used := 0;
      var b: u32 := head;
      ghost var k := 0;
      AtBlock(mem[..], head, blocks, mapped / 4, 0);
      assert blocks[0..] == blocks;
      while b != 0
        invariant k <= |blocks| && b == Link(blocks, k) && (b == 0 <==> k == |blocks|)
        invariant b != 0 ==> WordOf(b) == blocks[k].at && HasHeader(mem[..], blocks, k)
        invariant used + 4 * Words(blocks[k..], false) == 4 * Words(blocks, false)
        decreases |blocks| - k
      {
        var w := WordOf(b);
        assert blocks[k..][1..] == blocks[k + 1..];
        if mem[w + 1] == 0 {
          used := used + mem[w];
        }
        AtBlock(mem[..], head, blocks, mapped / 4, k + 1);
        b, k := mem[w + 2], k + 1;
      }
    }
  }
}
