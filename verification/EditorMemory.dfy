/** Who owns which allocation: the editor's live buffer, its snapshots and the
    editor record itself, among everything else on the kernel heap. */
module EditorMemory {
  import opened Bytes
  import opened EditorModel

  type Blocks = map<int, seq<byte>>

  /** struct ed_snap. */
  datatype Slot = Slot(ptr: int, len: nat, cursor: nat)

  /** The first `len` bytes of an allocation. */
  ghost function TextAt(b: Blocks, ptr: int, len: nat): seq<byte> {
    if ptr in b && len <= |b[ptr]| then b[ptr][..len] else []
  }

  /** The snapshots a stack of slots stands for. */
  ghost function Snaps(b: Blocks, slots: seq<Slot>): (s: seq<Snap>)
    ensures |s| == |slots|
  {
    seq(|slots|, k requires 0 <= k < |slots| => Snap(TextAt(b, slots[k].ptr, slots[k].len), slots[k].cursor))
  }

  ghost function Names(slots: seq<Slot>): set<int> {
    set k | 0 <= k < |slots| :: slots[k].ptr
  }

  ghost function Owned(rec: int, buf: int, us: seq<Slot>, rs: seq<Slot>): set<int> {
    {rec, buf} + Names(us) + Names(rs)
  }

  /** Live slots of distinct allocations of exactly the snapshot's size, none of
      them in `taken`. */
  ghost predicate Apart(b: Blocks, slots: seq<Slot>, taken: set<int>) {
    && (forall k :: 0 <= k < |slots| ==> slots[k].ptr in b && slots[k].ptr !in taken)
    && (forall k :: 0 <= k < |slots| ==> |b[slots[k].ptr]| == Max(slots[k].len, 1))
    && (forall i, j :: 0 <= i < j < |slots| ==> slots[i].ptr != slots[j].ptr)
  }

  /** The editor's allocations are live and pairwise distinct. */
  ghost predicate Held(b: Blocks, rec: int, buf: int, cap: nat, us: seq<Slot>, rs: seq<Slot>) {
    && rec in b && buf in b && rec != buf && |b[buf]| == cap
    && Apart(b, us, {rec, buf}) && Apart(b, rs, {rec, buf})
    && (forall i, j :: 0 <= i < |us| && 0 <= j < |rs| ==> us[i].ptr != rs[j].ptr)
  }

  /** Every allocation that is not the editor's. */
  ghost function Others(b: Blocks, rec: int, buf: int, us: seq<Slot>, rs: seq<Slot>): Blocks {
    b - Owned(rec, buf, us, rs)
  }

  lemma {:induction false} NamesCount(b: Blocks, slots: seq<Slot>, taken: set<int>)
    requires Apart(b, slots, taken)
    ensures |Names(slots)| == |slots|
    decreases |slots|
  {
    if |slots| == 0 {
      assert Names(slots) == {};
    } else {
      var last := |slots| - 1;
      NamesCount(b, slots[..last], taken);
      assert Names(slots) == Names(slots[..last]) + {slots[last].ptr};
      assert slots[last].ptr !in Names(slots[..last]);
    }
  }

  /** The editor owns exactly 2 + undo_n + redo_n allocations. */
  lemma OwnedCount(b: Blocks, rec: int, buf: int, cap: nat, us: seq<Slot>, rs: seq<Slot>)
    requires Held(b, rec, buf, cap, us, rs)
    ensures Owned(rec, buf, us, rs) <= b.Keys
    ensures |Owned(rec, buf, us, rs)| == 2 + |us| + |rs|
  {
    NamesCount(b, us, {rec, buf});
    NamesCount(b, rs, {rec, buf});
    assert {rec, buf} !! Names(us) && {rec, buf} + Names(us) !! Names(rs);
    assert |{rec, buf} + Names(us)| == 2 + |us|;
  }

  lemma HeldSwap(b: Blocks, rec: int, buf: int, cap: nat, us: seq<Slot>, rs: seq<Slot>)
    requires Held(b, rec, buf, cap, us, rs)
    ensures Held(b, rec, buf, cap, rs, us) && Owned(rec, buf, us, rs) == Owned(rec, buf, rs, us)
  {
    hide Apart;
  }

  /** Blocks that differ only outside a stack show the same snapshots. */
  lemma SnapsFrame(b: Blocks, c: Blocks, slots: seq<Slot>)
    requires forall k :: 0 <= k < |slots| ==>
      (slots[k].ptr in b <==> slots[k].ptr in c) && (slots[k].ptr in b ==> b[slots[k].ptr] == c[slots[k].ptr])
    ensures Snaps(c, slots) == Snaps(b, slots)
  {
  }

  /** A fresh allocation beside the editor's. */
  lemma HeldBeside(b: Blocks, rec: int, buf: int, cap: nat, us: seq<Slot>, rs: seq<Slot>, p: int, x: seq<byte>)
    requires Held(b, rec, buf, cap, us, rs) && p !in b
    ensures var c := b[p := x];
      && Held(c, rec, buf, cap, us, rs) && p !in Owned(rec, buf, us, rs)
      && c[buf] == b[buf]
      && Snaps(c, us) == Snaps(b, us) && Snaps(c, rs) == Snaps(b, rs)
      && Others(c, rec, buf, us, rs) == Others(b, rec, buf, us, rs)[p := x]
  {
    SnapsFrame(b, b[p := x], rs);
    SnapsFrame(b, b[p := x], us);
  }

  /** An allocation beside the editor's becomes the top snapshot. */
  lemma HeldAdopt(b: Blocks, rec: int, buf: int, cap: nat, us: seq<Slot>, rs: seq<Slot>, slot: Slot)
    requires Held(b, rec, buf, cap, us, rs) && slot.ptr !in Owned(rec, buf, us, rs)
    requires slot.ptr in b && |b[slot.ptr]| == Max(slot.len, 1)
    ensures Held(b, rec, buf, cap, us + [slot], rs)
    ensures Snaps(b, us + [slot]) == Snaps(b, us) + [Snap(b[slot.ptr][..slot.len], slot.cursor)]
    ensures Others(b, rec, buf, us + [slot], rs) == Others(b, rec, buf, us, rs) - {slot.ptr}
  {
    forall k | 0 <= k < |us| ensures us[k].ptr != slot.ptr {
      assert us[k].ptr in Names(us);
    }
    forall k | 0 <= k < |rs| ensures rs[k].ptr != slot.ptr {
      assert rs[k].ptr in Names(rs);
    }
    assert Names(us + [slot]) == Names(us) + {slot.ptr} by {
      assert (us + [slot])[|us|] == slot;
      assert forall k :: 0 <= k < |us| ==> us[k] == (us + [slot])[k];
    }
  }

  /** A full stack frees its oldest snapshot. */
  lemma HeldDrop(b: Blocks, rec: int, buf: int, cap: nat, us: seq<Slot>, rs: seq<Slot>)
    requires Held(b, rec, buf, cap, us, rs) && |us| > 0
    ensures var c := b - {us[0].ptr};
      && Held(c, rec, buf, cap, us[1..], rs)
      && c[buf] == b[buf]
      && Snaps(c, us[1..]) == Snaps(b, us)[1..]
      && Snaps(c, rs) == Snaps(b, rs)
      && Others(c, rec, buf, us[1..], rs) == Others(b, rec, buf, us, rs)
  {
    var c := b - {us[0].ptr};
    SnapsFrame(b, c, rs);
    SnapsFrame(b, c, us[1..]);
    assert Names(us) == Names(us[1..]) + {us[0].ptr} by {
      assert forall k :: 1 <= k < |us| ==> us[k] == us[1..][k - 1];
    }
  }

  /** The live buffer is freed and the top snapshot's takes its place. */
  lemma HeldRestore(b: Blocks, rec: int, buf: int, cap: nat, us: seq<Slot>, rs: seq<Slot>)
    requires Held(b, rec, buf, cap, us, rs) && |us| > 0
    ensures var top := |us| - 1; var c := b - {buf};
      && Held(c, rec, us[top].ptr, Max(us[top].len, 1), us[..top], rs)
      && Snaps(c, us[..top]) == Snaps(b, us)[..top]
      && Snaps(c, rs) == Snaps(b, rs)
      && TextAt(c, us[top].ptr, us[top].len) == Snaps(b, us)[top].text
      && Others(c, rec, us[top].ptr, us[..top], rs) == Others(b, rec, buf, us, rs)
  {
    var top := |us| - 1;
    var c := b - {buf};
    SnapsFrame(b, c, rs);
    SnapsFrame(b, c, us[..top]);
    assert Names(us) == Names(us[..top]) + {us[top].ptr};
  }

  /** A bigger buffer takes the live buffer's place. */
  lemma HeldGrow(b: Blocks, rec: int, buf: int, cap: nat, us: seq<Slot>, rs: seq<Slot>, fresher: int, x: seq<byte>)
    requires Held(b, rec, buf, cap, us, rs) && fresher !in b
    ensures var c := b[fresher := x] - {buf};
      && Held(c, rec, fresher, |x|, us, rs)
      && c[fresher] == x
      && Snaps(c, us) == Snaps(b, us) && Snaps(c, rs) == Snaps(b, rs)
      && Others(c, rec, fresher, us, rs) == Others(b, rec, buf, us, rs)
  {
    var c := b[fresher := x] - {buf};
    SnapsFrame(b, c, rs);
    SnapsFrame(b, c, us);
  }

  /** Writing the live buffer touches no snapshot. */
  lemma HeldWrite(b: Blocks, rec: int, buf: int, cap: nat, us: seq<Slot>, rs: seq<Slot>, x: seq<byte>)
    requires Held(b, rec, buf, cap, us, rs) && |x| == cap
    ensures var c := b[buf := x];
      && Held(c, rec, buf, cap, us, rs)
      && Snaps(c, us) == Snaps(b, us) && Snaps(c, rs) == Snaps(b, rs)
      && Others(c, rec, buf, us, rs) == Others(b, rec, buf, us, rs)
  {
    var c := b[buf := x];
    SnapsFrame(b, c, rs);
    SnapsFrame(b, c, us);
  }

  /** Two new blocks and what is left without them. */
  lemma TwoTaken(b: Blocks, p: int, q: int, s: seq<byte>, t: seq<byte>)
    requires p !in b && q !in b
    ensures b[p := s][q := t] - {p, q} == b && b[p := s][q := t] - {q} - {p} == b
  {
  }

  /** The kernel heap as its clients see it: live allocations and their bytes. */
  class Memory {
    var blocks: Blocks
    var last: int
    /** kmalloc never fails on this heap. */
    const reliable: bool

    ghost predicate Valid()
      reads this
    {
      last >= 0 && forall p :: p in blocks ==> 0 < p <= last
    }

    constructor (reliable: bool)
      ensures Valid() && blocks == map[] && this.reliable == reliable
    {
      blocks, last, this.reliable := map[], 0, reliable;
    }

    /** kmalloc: a new live block, or 0. */
    method Kmalloc(n: nat) returns (p: int)
      requires Valid()
      modifies this
      ensures Valid() && (reliable ==> p != 0)
      ensures p == 0 ==> blocks == old(blocks)
      ensures p != 0 ==> p !in old(blocks) && p in blocks && |blocks[p]| == n && blocks == old(blocks)[p := blocks[p]]
    {
      var full := *;
      if full && !reliable {
        return 0;
      }
      last := last + 1;
      p := last;
      blocks := blocks[p := Zeros(n)];
    }

    /** kfree of a live block. */
    method Kfree(p: int)
      requires Valid() && p in blocks
      modifies this
      ensures Valid() && blocks == old(blocks) - {p}
    {
      blocks := blocks - {p};
    }

    /** memcpy of `n` bytes from the start of one block to the start of another. */
    method Memcpy(to: int, from: int, n: nat)
      requires Valid() && to in blocks && from in blocks && n <= |blocks[to]| && n <= |blocks[from]|
      modifies this
      ensures Valid()
      ensures blocks == old(blocks)[to := old(blocks)[from][..n] + old(blocks)[to][n..]]
    {
      blocks := blocks[to := blocks[from][..n] + blocks[to][n..]];
    }

    /** fs_read of file data into a block. */
    method Load(to: int, data: seq<byte>)
      requires Valid() && to in blocks && |data| <= |blocks[to]|
      modifies this
      ensures Valid() && blocks == old(blocks)[to := data + old(blocks)[to][|data|..]]
    {
      blocks := blocks[to := data + blocks[to][|data|..]];
    }

    /** memmove of `n` bytes within a block. */
    method Memmove(p: int, to: nat, from: nat, n: nat)
      requires Valid() && p in blocks && to + n <= |blocks[p]| && from + n <= |blocks[p]|
      modifies this
      ensures Valid()
      ensures blocks == old(blocks)[p :=
        old(blocks)[p][..to] + old(blocks)[p][from..from + n] + old(blocks)[p][to + n..]]
    {
      blocks := blocks[p := blocks[p][..to] + blocks[p][from..from + n] + blocks[p][to + n..]];
    }

    method Put(p: int, i: nat, c: byte)
      requires Valid() && p in blocks && i < |blocks[p]|
      modifies this
      ensures Valid() && blocks == old(blocks)[p := old(blocks)[p][..i] + [c] + old(blocks)[p][i + 1..]]
    {
      blocks := blocks[p := blocks[p][..i] + [c] + blocks[p][i + 1..]];
    }
  }
}
