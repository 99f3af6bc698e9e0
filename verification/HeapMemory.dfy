/** The kernel heap as what its users see: a map from pointers to the bytes
    behind them. kmalloc, kfree and a store of a byte act on that map as
    `EditorMemory.Memory` says, and never on the bytes of another allocation. */
module HeapMemory {
  import opened Bytes
  import opened HeapList
  import opened KernelHeap

  // --- bytes in words -------------------------------------------------------

  /** A word with byte `r` replaced. */
  function WithByte(word: u32, r: nat, x: byte): u32
    requires r < 4
  {
    Decode32(Encode32(word)[r := x])
  }

  lemma DecodedBytes(b: seq<byte>)
    requires |b| == 4
    ensures Encode32(Decode32(b)) == b
  {
    var b0: int, b1: int, b2: int, b3: int := b[0], b[1], b[2], b[3];
    var x, h, hh := Decode32(b), b1 + 0x100 * b2 + 0x1_0000 * b3, b2 + 0x100 * b3;
    assert x == b0 + 0x100 * h && h == b1 + 0x100 * hh;
    assert x / 0x100 == h && h / 0x100 == hh && x / 0x1_0000 == h / 0x100 && x / 0x100_0000 == hh / 0x100;
  }

  // --- the map --------------------------------------------------------------

  /** The byte at address `a` of the heap window. */
  ghost function ByteAt(mem: seq<u32>, a: int): byte {
    var w := (a - HEAP_BASE) / 4;
    if a >= HEAP_BASE && w < |mem| then Encode32(mem[w])[(a - HEAP_BASE) % 4] else 0
  }

  ghost function BytesAt(mem: seq<u32>, p: int, n: nat): (s: seq<byte>)
    ensures |s| == n
  {
    seq<byte>(n, j => ByteAt(mem, p + j))
  }

  /** Block `b` is the one behind `p` and has room for `n` bytes. */
  ghost predicate Behind(b: Block, p: int, n: nat) {
    Addr(b.at + 3) == p && n <= 4 * b.words
  }

  /** Every allocation is behind a block in use; `sizes` are the sizes asked for. */
  ghost predicate Holds(live: seq<Block>, sizes: map<int, nat>) {
    forall p :: p in sizes ==> exists i :: 0 <= i < |live| && Behind(live[i], p, sizes[p])
  }

  ghost function View(mem: seq<u32>, sizes: map<int, nat>): map<int, seq<byte>> {
    map p | p in sizes :: BytesAt(mem, p, sizes[p])
  }

  // --- blocks in use --------------------------------------------------------

  lemma {:induction false} LiveFrom(bl: seq<Block>, start: nat, stop: nat, i: nat)
    requires Tiles(bl, start, stop) && i < |Live(bl)|
    ensures start <= Live(bl)[i].at && Live(bl)[i].End() <= stop
    decreases |bl|
  {
    LiveMember(bl, Live(bl)[i]);
    var k :| 0 <= k < |bl| && bl[k] == Live(bl)[i];
    TilesWithin(bl, start, stop, k);
  }

  lemma RestTiles(bl: seq<Block>, start: nat, stop: nat)
    requires Tiles(bl, start, stop) && |bl| > 0
    ensures Tiles(bl[1..], bl[0].End(), stop) && bl[0].at == start
  {
  }

  /** Blocks in use follow one another without overlap. */
  lemma {:induction false} LiveApart(bl: seq<Block>, start: nat, stop: nat, i: nat, j: nat)
    requires Tiles(bl, start, stop) && i < j < |Live(bl)|
    ensures Live(bl)[i].End() <= Live(bl)[j].at
    decreases |bl|
  {
    hide Tiles;
    RestTiles(bl, start, stop);
    if bl[0].free {
      LiveApart(bl[1..], bl[0].End(), stop, i, j);
    } else if i == 0 {
      LiveFrom(bl[1..], bl[0].End(), stop, j - 1);
    } else {
      LiveApart(bl[1..], bl[0].End(), stop, i - 1, j - 1);
    }
  }

  /** So at most one of them is behind a pointer. */
  lemma OneBehind(bl: seq<Block>, stop: nat, i: nat, j: nat)
    requires Tiles(bl, 0, stop) && i < |Live(bl)| && j < |Live(bl)| && Live(bl)[i].at == Live(bl)[j].at
    ensures i == j
  {
    if i < j {
      LiveApart(bl, 0, stop, i, j);
    } else if j < i {
      LiveApart(bl, 0, stop, j, i);
    }
  }

  /** Two memories with the same words in the payloads in use show the same bytes. */
  lemma SameBytes(mem: seq<u32>, after: seq<u32>, live: seq<Block>, sizes: map<int, nat>)
    requires |after| == |mem| && Holds(live, sizes)
    requires forall w :: 0 <= w < |mem| && InPayload(live, w) ==> after[w] == mem[w]
    ensures View(after, sizes) == View(mem, sizes)
  {
    forall p | p in sizes ensures BytesAt(after, p, sizes[p]) == BytesAt(mem, p, sizes[p]) {
      var i :| 0 <= i < |live| && Behind(live[i], p, sizes[p]);
      SamePayload(mem, after, live, i, p, sizes[p]);
    }
  }

  lemma SamePayload(mem: seq<u32>, after: seq<u32>, live: seq<Block>, i: nat, p: int, n: nat)
    requires |after| == |mem| && i < |live| && Behind(live[i], p, n)
    requires forall w :: 0 <= w < |mem| && InPayload(live, w) ==> after[w] == mem[w]
    ensures BytesAt(after, p, n) == BytesAt(mem, p, n)
  {
    hide ByteAt, InPayload, Behind;
    forall j | 0 <= j < n ensures BytesAt(after, p, n)[j] == BytesAt(mem, p, n)[j] {
      WordOfByte(live, i, p, n, j);
      ByteOfWord(mem, after, p + j);
    }
  }

  lemma ByteOfWord(mem: seq<u32>, after: seq<u32>, a: int)
    requires |after| == |mem| && a >= HEAP_BASE
    requires (a - HEAP_BASE) / 4 < |mem| ==> after[(a - HEAP_BASE) / 4] == mem[(a - HEAP_BASE) / 4]
    ensures ByteAt(after, a) == ByteAt(mem, a)
  {
  }

  /** The word that holds byte `j` of an allocation. */
  lemma WordOfByte(live: seq<Block>, i: nat, p: int, n: nat, j: nat)
    requires i < |live| && Behind(live[i], p, n) && j < n
    ensures var w := (p + j - HEAP_BASE) / 4;
      p + j >= HEAP_BASE && live[i].at + 3 <= w < live[i].End() && InPayload(live, w)
  {
  }

  /** A block more in use. */
  lemma HoldsMore(before: seq<Block>, after: seq<Block>, i: nat, b: Block, sizes: map<int, nat>, p: int, n: nat)
    requires Inserted(before, after, i, b) && Holds(before, sizes) && Behind(b, p, n)
    ensures Holds(after, sizes[p := n])
  {
    assert after[i] == b;
    forall q | q in sizes ensures exists j :: 0 <= j < |after| && Behind(after[j], q, sizes[q]) {
      var j :| 0 <= j < |before| && Behind(before[j], q, sizes[q]);
      assert after[if j < i then j else j + 1] == before[j];
    }
  }

  lemma NewPointer(bl: seq<Block>, stop: nat, before: seq<Block>, i: nat, b: Block, sizes: map<int, nat>)
    requires Tiles(bl, 0, stop) && Inserted(before, Live(bl), i, b) && Holds(before, sizes)
    ensures Addr(b.at + 3) !in sizes
  {
    var p := Addr(b.at + 3);
    if p in sizes {
      var j :| 0 <= j < |before| && Behind(before[j], p, sizes[p]);
      var k := if j < i then j else j + 1;
      assert Live(bl)[k] == before[j] && Live(bl)[i] == b;
      OneBehind(bl, stop, k, i);
    }
  }

  /** A block less in use. */
  lemma HoldsLess(bl: seq<Block>, stop: nat, i: nat, after: seq<Block>, sizes: map<int, nat>, p: int)
    requires Tiles(bl, 0, stop) && i < |Live(bl)| && after == Live(bl)[..i] + Live(bl)[i + 1..]
    requires Holds(Live(bl), sizes) && Addr(Live(bl)[i].at + 3) == p
    ensures Holds(after, sizes - {p})
  {
    var live := Live(bl);
    forall q | q in sizes - {p} ensures exists j :: 0 <= j < |after| && Behind(after[j], q, sizes[q]) {
      var j :| 0 <= j < |live| && Behind(live[j], q, sizes[q]);
      assert j != i;
      assert after[if j < i then j else j - 1] == live[j];
    }
  }

  // --- kmalloc, kfree and stores --------------------------------------------

  /** The heap is in order and holds these allocations. */
  ghost predicate Serves(h: KernelHeap, sizes: map<int, nat>)
    reads h, h.mem
  {
    h.Valid() && Holds(Live(h.blocks), sizes)
  }

  /** kmalloc: either nothing a user sees has changed, or there is one new
      allocation of `n` bytes and every other one has the bytes it had. */
  method Allocate(h: KernelHeap, n: u32, ghost sizes: map<int, nat>) returns (p: u32, ghost after: map<int, nat>)
    requires Serves(h, sizes) && n <= 0xFFFF_FFF8 && StaysInWindow(h.State(), n)
    modifies h`head, h`mapped, h`blocks, h`frames, h`tables, h.mem
    ensures Serves(h, after)
    ensures p == 0 ==> after == sizes && View(h.mem[..], after) == old(View(h.mem[..], sizes))
    ensures p != 0 ==> p !in sizes && after == sizes[p := n]
    ensures p != 0 ==>
      View(h.mem[..], after) == old(View(h.mem[..], sizes))[p := BytesAt(h.mem[..], p, n)]
  {
    hide Tiles, NoAdjacentFree, Represents, Live, Malloc, StaysInWindow, LastRoom, Holds, View, InPayload;
    ghost var before := h.State();
    assert HeapOk(before);
    MallocOk(before, n);
    p := h.Kmalloc(n);
    SameBytes(old(h.mem[..]), h.mem[..], Live(before.blocks), sizes);
    after := sizes;
    if p != 0 {
      PayloadSufficesIff(before, n);
      ghost var i, b :| Inserted(Live(before.blocks), Live(h.blocks), i, b) && p == Addr(b.at + 3) && 4 * b.words >= n;
      NewPointer(h.blocks, h.mapped / 4, Live(before.blocks), i, b, sizes);
      HoldsMore(Live(before.blocks), Live(h.blocks), i, b, sizes, p, n);
      after := sizes[p := n];
      ViewMore(h.mem[..], sizes, p, n);
    }
  }

  lemma ViewMore(mem: seq<u32>, sizes: map<int, nat>, p: int, n: nat)
    requires p !in sizes
    ensures View(mem, sizes[p := n]) == View(mem, sizes)[p := BytesAt(mem, p, n)]
  {
  }

  lemma ViewLess(mem: seq<u32>, sizes: map<int, nat>, p: int)
    ensures View(mem, sizes - {p}) == View(mem, sizes) - {p}
  {
  }

  /** The block behind an allocation. */
  lemma BlockBehind(bl: seq<Block>, p: int, sizes: map<int, nat>) returns (k: nat)
    requires Holds(Live(bl), sizes) && p in sizes
    ensures k < |bl| && !bl[k].free && Behind(bl[k], p, sizes[p])
  {
    var live := Live(bl);
    var i :| 0 <= i < |live| && Behind(live[i], p, sizes[p]);
    LiveMember(bl, live[i]);
    k :| 0 <= k < |bl| && bl[k] == live[i];
  }

  /** A store into a payload leaves the block list as it is. */
  lemma PayloadStored(mem: seq<u32>, after: seq<u32>, head: u32, bl: seq<Block>, stop: nat, k: nat, w: nat)
    requires Represents(mem, head, bl) && Tiles(bl, 0, stop) && k < |bl| && bl[k].at + 3 <= w < bl[k].End()
    requires SameOutside(mem, after, w, w + 1)
    ensures Represents(after, head, bl)
  {
    BlocksApart(bl, 0, stop, k);
    forall i | 0 <= i < |bl| ensures HasHeader(after, bl, i) {
      assert HasHeader(mem, bl, i);
    }
  }

  /** The byte stored is the only one that changes. */
  lemma StoredByte(mem: seq<u32>, a: int, x: byte, b: int)
    requires a >= HEAP_BASE && (a - HEAP_BASE) / 4 < |mem|
    ensures var w := (a - HEAP_BASE) / 4;
      ByteAt(mem[w := WithByte(mem[w], (a - HEAP_BASE) % 4, x)], b) == if b == a then x else ByteAt(mem, b)
  {
    var w, r := (a - HEAP_BASE) / 4, (a - HEAP_BASE) % 4;
    DecodedBytes(Encode32(mem[w])[r := x]);
    hide Encode32, Decode32;
    if b >= HEAP_BASE && (b - HEAP_BASE) / 4 == w && (b - HEAP_BASE) % 4 == r {
      assert b == a;
    }
  }

  /** Allocations share no address. */
  lemma BytesApart(bl: seq<Block>, stop: nat, sizes: map<int, nat>, p: int, i: nat, q: int, j: nat)
    requires Tiles(bl, 0, stop) && Holds(Live(bl), sizes) && p in sizes && q in sizes && p != q
    requires i < sizes[p] && j < sizes[q]
    ensures p + i != q + j
  {
    var live := Live(bl);
    var s :| 0 <= s < |live| && Behind(live[s], p, sizes[p]);
    var t :| 0 <= t < |live| && Behind(live[t], q, sizes[q]);
    WordOfByte(live, s, p, sizes[p], i);
    WordOfByte(live, t, q, sizes[q], j);
    if s < t {
      LiveApart(bl, 0, stop, s, t);
    } else if t < s {
      LiveApart(bl, 0, stop, t, s);
    }
  }

  /** So one allocation has one byte changed and the others none. */
  lemma ViewStored(bl: seq<Block>, stop: nat, sizes: map<int, nat>, mem: seq<u32>, p: int, i: nat, x: byte)
    requires Tiles(bl, 0, stop) && Holds(Live(bl), sizes) && p in sizes && i < sizes[p]
    requires p + i >= HEAP_BASE && (p + i - HEAP_BASE) / 4 < |mem|
    ensures var w := (p + i - HEAP_BASE) / 4;
      View(mem[w := WithByte(mem[w], (p + i - HEAP_BASE) % 4, x)], sizes)
        == View(mem, sizes)[p := BytesAt(mem, p, sizes[p])[i := x]]
  {
    hide Tiles, Live, Holds, WithByte, ByteAt;
    var w := (p + i - HEAP_BASE) / 4;
    var after := mem[w := WithByte(mem[w], (p + i - HEAP_BASE) % 4, x)];
    forall q | q in sizes
      ensures BytesAt(after, q, sizes[q])
           == if q == p then BytesAt(mem, p, sizes[p])[i := x] else BytesAt(mem, q, sizes[q])
    {
      forall j | 0 <= j < sizes[q]
        ensures BytesAt(after, q, sizes[q])[j] == if q == p && j == i then x else BytesAt(mem, q, sizes[q])[j]
      {
        StoredByte(mem, p + i, x, q + j);
        if q != p {
          BytesApart(bl, stop, sizes, p, i, q, j);
        }
      }
    }
  }

  /** Storing a byte inside an allocation: the heap stays in order, and no other
      byte of any allocation changes. */
  method Put(h: KernelHeap, p: u32, i: nat, x: byte, ghost sizes: map<int, nat>)
    requires Serves(h, sizes) && p in sizes && i < sizes[p]
    modifies h.mem
    ensures Serves(h, sizes) && h.blocks == old(h.blocks)
    ensures View(h.mem[..], sizes) == old(View(h.mem[..], sizes))[p := BytesAt(old(h.mem[..]), p, sizes[p])[i := x]]
  {
    hide Tiles, NoAdjacentFree, Represents, Live, LastRoom, Holds, View, InPayload, WithByte;
    ghost var before := h.mem[..];
    ghost var k := BlockBehind(h.blocks, p, sizes);
    BlocksApart(h.blocks, 0, h.mapped / 4, k);
    var w := (p + i - HEAP_BASE) / 4;
    h.mem[w] := WithByte(h.mem[w], (p + i - HEAP_BASE) % 4, x);
    assert h.mem[..] == before[w := WithByte(before[w], (p + i - HEAP_BASE) % 4, x)];
    PayloadStored(before, h.mem[..], h.head, h.blocks, h.mapped / 4, k, w);
    ViewStored(h.blocks, h.mapped / 4, sizes, before, p, i, x);
  }

  /** kfree: that allocation is gone, the others have the bytes they had. */
  method Release(h: KernelHeap, p: u32, ghost sizes: map<int, nat>) returns (ghost after: map<int, nat>)
    requires Serves(h, sizes) && p in sizes
    modifies h`blocks, h.mem
    ensures Serves(h, after) && after == sizes - {p}
    ensures View(h.mem[..], after) == old(View(h.mem[..], sizes)) - {p}
  {
    hide Tiles, NoAdjacentFree, Represents, Live, LastRoom, Holds, View, InPayload, Coalesced, Released;
    ghost var was := h.blocks;
    ghost var k := BlockBehind(was, p, sizes);
    ReleasedShape(was, k, 0, h.mapped / 4);
    h.Kfree(p, k);
    after := sizes - {p};
    HoldsLess(was, h.mapped / 4, |Live(was[..k])|, Live(h.blocks), sizes, p);
    SameBytes(old(h.mem[..]), h.mem[..], Live(h.blocks), after);
    ViewLess(old(h.mem[..]), sizes, p);
  }
}
