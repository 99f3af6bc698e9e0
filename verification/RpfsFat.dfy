/** Block chains: following, freeing, allocating and linking them in the cached FAT. */
module RpfsFat {
  import opened Bytes
  import opened RpfsLayout

  /** A link that names a block, as the loops over chains test it. */
  predicate IsBlock(b: u16) {
    b != FAT_FREE && b != FAT_END
  }

  ghost predicate HasEntry(fat: seq<u16>, x: u16) {
    x < |fat|
  }

  /** Every link stays inside the table. */
  ghost predicate InRange(fat: seq<u16>) {
    forall x :: 0 <= x < |fat| && IsBlock(fat[x]) ==> fat[x] < |fat|
  }

  ghost predicate Ascending(c: seq<u16>) {
    forall j, k :: 0 <= j < k < |c| ==> c[j] < c[k]
  }

  /** What the FAT holds for the k-th block of chain `c`. */
  function Next(c: seq<u16>, k: nat): u16 {
    if k + 1 < |c| then c[k + 1] else FAT_END
  }

  /** `c` is the complete chain behind a directory entry whose first block is `first`. */
  ghost predicate IsChain(fat: seq<u16>, blocks: nat, first: u16, c: seq<u16>)
    requires blocks < |fat|
  {
    && first == Head(c)
    && Ascending(c)
    && forall k :: 0 <= k < |c| ==> 1 <= c[k] <= blocks && fat[c[k]] == Next(c, k)
  }

  /** The first block of chain `c`, as a directory entry records it. */
  function Head(c: seq<u16>): u16 {
    if |c| == 0 then 0 else c[0]
  }

  /** A chain without its first block is the chain that block links to. */
  lemma ChainTail(fat: seq<u16>, blocks: nat, c: seq<u16>)
    requires blocks < |fat| && IsChain(fat, blocks, Head(c), c) && |c| > 0
    ensures fat[c[0]] == if |c| == 1 then FAT_END else c[1]
    ensures IsChain(fat, blocks, Head(c[1..]), c[1..])
    ensures blocks <= MAX_BLOCKS ==> c[0] < fat[c[0]]
  {
    var t := c[1..];
    assert fat[c[0]] == Next(c, 0);
    forall k | 0 <= k < |t| ensures 1 <= t[k] <= blocks && fat[t[k]] == Next(t, k) {
      assert t[k] == c[k + 1] && Next(t, k) == Next(c, k + 1);
    }
  }

  /** The blocks met by following links upward from `b`. */
  ghost function Chain(fat: seq<u16>, b: u16): seq<u16>
    decreases |fat| - b
  {
    if !IsBlock(b) || b >= |fat| then []
    else if fat[b] <= b then [b]
    else [b] + Chain(fat, fat[b])
  }

  lemma {:induction false} ChainUnique(fat: seq<u16>, blocks: nat, first: u16, c: seq<u16>)
    requires blocks < |fat| && blocks <= MAX_BLOCKS
    requires IsChain(fat, blocks, first, c)
    ensures Chain(fat, first) == c
    decreases |c|
  {
    if |c| > 0 {
      ChainTail(fat, blocks, c);
      assert c == [c[0]] + c[1..];
      if |c| > 1 {
        ChainUnique(fat, blocks, c[1], c[1..]);
      } else {
        assert Chain(fat, FAT_END) == [];
      }
    }
  }

  // --- following links in an arbitrary table --------------------------------

  /** The link reached after `n` steps from `b`; the end of a chain stays at 0. */
  ghost function Follow(fat: seq<u16>, b: u16, n: nat): u16
    decreases n
  {
    if n == 0 then b
    else if !IsBlock(b) || b >= |fat| then 0
    else Follow(fat, fat[b], n - 1)
  }

  /** Block `x` is met when following links from `first`. */
  ghost predicate Reachable(fat: seq<u16>, first: u16, x: u16) {
    IsBlock(x) && exists n: nat :: Follow(fat, first, n) == x
  }

  lemma {:induction false} FollowStep(fat: seq<u16>, b: u16, n: nat)
    requires IsBlock(Follow(fat, b, n)) && Follow(fat, b, n) < |fat|
    ensures Follow(fat, b, n + 1) == fat[Follow(fat, b, n)]
    decreases n
  {
    if n > 0 {
      FollowStep(fat, fat[b], n - 1);
    } else {
      assert Follow(fat, fat[b], 0) == fat[b];
    }
  }

  /** A set that contains the start and is closed under links contains all that is reachable. */
  lemma {:induction false} ClosedUnderFollow(fat: seq<u16>, visited: set<u16>, b: u16, n: nat)
    requires !IsBlock(b) || b in visited
    requires forall v :: v in visited ==> v < |fat| && (!IsBlock(fat[v]) || fat[v] in visited)
    ensures !IsBlock(Follow(fat, b, n)) || Follow(fat, b, n) in visited
    decreases n
  {
    if n > 0 && IsBlock(b) {
      ClosedUnderFollow(fat, visited, fat[b], n - 1);
    }
  }

  /** free_chain: ends on every in-range table, cyclic and cross-linked ones
      included, and frees exactly the blocks reachable from `first`. */
  method FreeChain(fat: array<u16>, first: u16)
    requires InRange(fat[..]) && (IsBlock(first) ==> first < fat.Length)
    modifies fat
    ensures forall x: u16 :: x < fat.Length ==>
      fat[x] == if Reachable(old(fat[..]), first, x) then FAT_FREE else old(fat[x])
    ensures forall x :: 0x1_0000 <= x < fat.Length ==> fat[x] == old(fat[x])
  {
    ghost var before := fat[..];
    ghost var visited: set<u16>, n: nat := {}, 0;
    ghost var todo := set x: u16 | HasEntry(before, x);
    var b: u16 := first;
    while b != FAT_FREE && b != FAT_END
      invariant IsBlock(b) ==> b < fat.Length
      invariant IsBlock(b) ==> Follow(before, first, n) == b
      invariant forall v :: v in visited ==> v < fat.Length && Reachable(before, first, v)
      invariant forall v :: v in visited ==> !IsBlock(before[v]) || before[v] in visited || before[v] == b
      invariant !IsBlock(first) || first in visited || first == b
      invariant forall x: u16 :: x < fat.Length ==> fat[x] == if x in visited then FAT_FREE else before[x]
      invariant forall x :: 0x1_0000 <= x < fat.Length ==> fat[x] == before[x]
      invariant forall x: u16 :: HasEntry(before, x) && x !in visited ==> x in todo
      invariant forall x :: x in todo ==> x !in visited
      decreases todo, IsBlock(b)
    {
      var next := fat[b];
      fat[b] := FAT_FREE;
      FollowStep(before, first, n);
      assert HasEntry(before, b) && (b in visited ==> next == FAT_FREE);
      visited, todo := visited + {b}, todo - {b};
      b, n := next, n + 1;
    }
    forall x: u16 | x < fat.Length && Reachable(before, first, x)
      ensures x in visited
    {
      var m: nat :| Follow(before, first, m) == x;
      ClosedUnderFollow(before, visited, first, m);
    }
  }

  // --- freeing, linking and counting ----------------------------------------

  /** The table with the blocks of `c` freed. */
  ghost function Cleared(fat: seq<u16>, c: seq<u16>): (after: seq<u16>)
    ensures |after| == |fat|
  {
    seq(|fat|, x requires 0 <= x < |fat| => if x in c then FAT_FREE else fat[x])
  }

  lemma {:induction false} FollowChain(fat: seq<u16>, blocks: nat, c: seq<u16>, n: nat)
    requires blocks < |fat| && blocks <= MAX_BLOCKS
    requires IsChain(fat, blocks, Head(c), c)
    ensures Follow(fat, Head(c), n) == if n < |c| then c[n] else if n == |c| > 0 then FAT_END else 0
    decreases n
  {
    if |c| > 0 && n > 0 {
      ChainTail(fat, blocks, c);
      if |c| > 1 {
        FollowChain(fat, blocks, c[1..], n - 1);
      } else {
        assert Follow(fat, FAT_END, n - 1) == if n == 1 then FAT_END else 0;
      }
    }
  }

  /** On a well-formed chain the reachable blocks are the blocks of that chain. */
  lemma ReachableChain(fat: seq<u16>, blocks: nat, first: u16, c: seq<u16>, x: u16)
    requires blocks < |fat| && blocks <= MAX_BLOCKS
    requires IsChain(fat, blocks, first, c)
    ensures Reachable(fat, first, x) <==> x in c
  {
    if x in c {
      var n :| 0 <= n < |c| && c[n] == x;
      FollowChain(fat, blocks, c, n);
    }
    if Reachable(fat, first, x) {
      var n: nat :| Follow(fat, first, n) == x;
      FollowChain(fat, blocks, c, n);
    }
  }

  /** The table after free_chain(first). */
  ghost function Freed(fat: seq<u16>, first: u16): (after: seq<u16>)
    ensures |after| == |fat|
  {
    seq(|fat|, x requires 0 <= x < |fat| => if x < 0x1_0000 && Reachable(fat, first, x) then FAT_FREE else fat[x])
  }

  /** Behind what is no block nothing is freed. */
  lemma FreedNothing(fat: seq<u16>, b: u16)
    requires !IsBlock(b)
    ensures Freed(fat, b) == fat
  {
    forall x: u16 ensures !Reachable(fat, b, x) {
      assert forall n: nat :: !IsBlock(Follow(fat, b, n));
    }
  }

  /** On a well-formed chain exactly its blocks are freed. */
  lemma FreedChain(fat: seq<u16>, blocks: nat, first: u16, c: seq<u16>)
    requires blocks < |fat| && blocks <= MAX_BLOCKS
    ensures IsChain(fat, blocks, first, c) ==> Freed(fat, first) == Cleared(fat, c)
  {
    hide IsChain, Reachable;
    if IsChain(fat, blocks, first, c) {
      forall x | 0 <= x < |fat| ensures Freed(fat, first)[x] == Cleared(fat, c)[x] {
        if x < 0x1_0000 {
          ReachableChain(fat, blocks, first, c, x);
        }
      }
    }
  }

  /** The table after appending the blocks of `c` to an empty chain, one by one. */
  ghost function Linked(fat: seq<u16>, c: seq<u16>): (after: seq<u16>)
    requires forall k :: 0 <= k < |c| ==> c[k] < |fat|
    ensures |after| == |fat|
  {
    if |c| == 0 then fat
    else
      var last := |c| - 1;
      var f := Linked(fat, c[..last])[c[last] := FAT_END];
      if last > 0 then f[c[last - 1] := c[last]] else f
  }

  lemma {:induction false} LinkedShape(fat: seq<u16>, c: seq<u16>)
    requires Ascending(c) && forall k :: 0 <= k < |c| ==> c[k] < |fat|
    ensures forall k :: 0 <= k < |c| ==> Linked(fat, c)[c[k]] == Next(c, k)
    ensures forall x :: 0 <= x < |fat| && x !in c ==> Linked(fat, c)[x] == fat[x]
    decreases |c|
  {
    if |c| > 0 {
      var last := |c| - 1;
      var p := c[..last];
      LinkedShape(fat, p);
      var q, r := Linked(fat, p), Linked(fat, c);
      assert r == if last > 0 then q[c[last] := FAT_END][c[last - 1] := c[last]] else q[c[last] := FAT_END];
      hide Linked;
      forall k | 0 <= k < |c| ensures r[c[k]] == Next(c, k) {
        if k < last {
          assert p[k] == c[k] && c[k] < c[last] && q[p[k]] == Next(p, k);
          if k + 1 < last {
            assert c[k] < c[last - 1] && Next(p, k) == c[k + 1];
          }
        }
      }
      forall x | 0 <= x < |fat| && x !in c ensures r[x] == fat[x] {
        assert x !in p && x != c[last] && (last > 0 ==> x != c[last - 1]);
      }
    }
  }

  /** The number of free blocks among b..blocks. */
  function FreeCount(fat: seq<u16>, b: nat, blocks: nat): nat
    requires blocks < |fat|
    decreases blocks - b
  {
    if b > blocks then 0
    else (if fat[b] == FAT_FREE then 1 else 0) + FreeCount(fat, b + 1, blocks)
  }

  /** An ascending chain without its first block. */
  lemma TailBlocks(c: seq<u16>)
    requires Ascending(c) && |c| > 0
    ensures Ascending(c[1..])
    ensures forall k :: 0 <= k < |c[1..]| ==> c[1..][k] == c[k + 1] && c[0] < c[1..][k]
    ensures forall x :: x in c[1..] <==> x in c && x != c[0]
  {
    assert c == [c[0]] + c[1..];
  }

  lemma HeadIsLowest(c: seq<u16>)
    requires Ascending(c)
    ensures forall k :: 0 <= k < |c| ==> c[0] <= c[k]
  {
  }

  /** Freeing (or, read backwards, taking) the blocks of `c` changes the free count by |c|. */
  lemma {:induction false} FreeCountChange(taken: seq<u16>, freed: seq<u16>, c: seq<u16>, b: nat, blocks: nat)
    requires blocks < |taken| == |freed|
    requires Ascending(c) && forall k :: 0 <= k < |c| ==> b <= c[k] <= blocks
    requires forall k :: 0 <= k < |c| ==> taken[c[k]] != FAT_FREE && freed[c[k]] == FAT_FREE
    requires forall x :: b <= x <= blocks && x !in c ==> (taken[x] == FAT_FREE <==> freed[x] == FAT_FREE)
    ensures FreeCount(freed, b, blocks) == FreeCount(taken, b, blocks) + |c|
    decreases blocks - b
  {
    hide Ascending;
    if b > blocks {
      assert |c| == 0;
    } else if |c| > 0 && c[0] == b {
      TailBlocks(c);
      FreeCountChange(taken, freed, c[1..], b + 1, blocks);
    } else {
      HeadIsLowest(c);
      FreeCountChange(taken, freed, c, b + 1, blocks);
    }
  }

  /** The `n` lowest free blocks of b..blocks, or all of them when there are fewer. */
  ghost function LowestFree(fat: seq<u16>, b: nat, blocks: nat, n: nat): seq<u16>
    requires blocks < |fat| && blocks <= MAX_BLOCKS
    decreases blocks - b
  {
    if n == 0 || b > blocks then []
    else if fat[b] == FAT_FREE then [b] + LowestFree(fat, b + 1, blocks, n - 1)
    else LowestFree(fat, b + 1, blocks, n)
  }

  /** The free blocks of `c` have no free block of b..blocks before or between them. */
  ghost predicate AreLowest(fat: seq<u16>, b: nat, blocks: nat, c: seq<u16>)
    requires blocks < |fat|
  {
    && (forall k :: 0 <= k < |c| ==> b <= c[k] <= blocks && fat[c[k]] == FAT_FREE)
    && (forall x, k :: b <= x <= blocks && fat[x] == FAT_FREE && x !in c && 0 <= k < |c| ==> c[k] < x)
  }

  lemma LowestOfNothing(fat: seq<u16>, b: nat, blocks: nat)
    requires blocks < |fat|
    ensures Ascending([]) && AreLowest(fat, b, blocks, [])
  {
  }

  lemma PrependLowest(fat: seq<u16>, b: u16, blocks: nat, t: seq<u16>)
    requires b <= blocks < |fat| && fat[b] == FAT_FREE
    requires Ascending(t) && AreLowest(fat, b + 1, blocks, t)
    ensures Ascending([b] + t) && AreLowest(fat, b, blocks, [b] + t)
  {
    var c := [b] + t;
    assert forall k :: 0 < k < |c| ==> c[k] == t[k - 1];
    assert forall x :: x in c <==> x == b || x in t;
  }

  lemma {:induction false} LowestFreeShape(fat: seq<u16>, b: nat, blocks: nat, n: nat)
    requires blocks < |fat| && blocks <= MAX_BLOCKS
    ensures var c := LowestFree(fat, b, blocks, n);
      && Ascending(c) && AreLowest(fat, b, blocks, c)
      && |c| == Min(n, FreeCount(fat, b, blocks))
    decreases blocks - b
  {
    hide Ascending;
    LowestOfNothing(fat, b, blocks);
    if n > 0 && b <= blocks {
      if fat[b] == FAT_FREE {
        LowestFreeShape(fat, b + 1, blocks, n - 1);
        PrependLowest(fat, b, blocks, LowestFree(fat, b + 1, blocks, n - 1));
      } else {
        LowestFreeShape(fat, b + 1, blocks, n);
      }
    }
  }

  /** alloc_block: the lowest free block, or 0 when there is none. */
  method AllocBlock(fat: array<u16>, blocks: nat) returns (b: u16)
    requires blocks < fat.Length && blocks <= MAX_BLOCKS
    ensures IsLowestFree(fat[..], blocks, b)
  {
    var i := 1;
    while i <= blocks
      invariant 1 <= i <= blocks + 1
      invariant forall x :: 1 <= x < i ==> fat[x] != FAT_FREE
    {
      if fat[i] == FAT_FREE {
        return i;
      }
      i := i + 1;
    }
    return 0;
  }

  /** The blocks still free after linking `c` are the free ones outside `c`. */
  lemma FreeAfterLinking(fat: seq<u16>, c: seq<u16>, x: nat)
    requires Ascending(c) && forall k :: 0 <= k < |c| ==> 1 <= c[k] < |fat|
    requires x < |fat|
    ensures Linked(fat, c)[x] == FAT_FREE <==> fat[x] == FAT_FREE && x !in c
  {
    LinkedShape(fat, c);
    if x in c {
      var k :| 0 <= k < |c| && c[k] == x;
      assert Linked(fat, c)[c[k]] == Next(c, k) != FAT_FREE;
    }
  }

  /** `b` is the answer of alloc_block for this table. */
  ghost predicate IsLowestFree(fat: seq<u16>, blocks: nat, b: u16)
    requires blocks < |fat|
  {
    && (b != 0 ==> 1 <= b <= blocks && fat[b] == FAT_FREE)
    && forall x :: 1 <= x <= blocks && fat[x] == FAT_FREE ==> 0 < b <= x
  }

  /** Block number `k` of the chain fs_write builds is what alloc_block returns
      once the first `k` are linked; when the free blocks run out it returns 0. */
  lemma InPrefix(c: seq<u16>, k: nat, b: u16)
    requires Ascending(c) && k < |c| && b !in c[..k]
    ensures b in c ==> c[k] <= b
  {
    assert forall j :: 0 <= j < k ==> c[..k][j] == c[j];
    if b in c {
      var j :| 0 <= j < |c| && c[j] == b;
    }
  }

  lemma NextLowest(fat: seq<u16>, blocks: nat, n: nat, c: seq<u16>, k: nat, b: u16)
    requires blocks < |fat| && blocks <= MAX_BLOCKS
    requires c == LowestFree(fat, 1, blocks, n) && k <= |c| && k < n
    requires forall j :: 0 <= j < |c| ==> c[j] < |fat|
    requires IsLowestFree(Linked(fat, c[..k]), blocks, b)
    ensures b == if k < |c| then c[k] else 0
  {
    hide Linked, LowestFree, FreeCount;
    LowestFreeShape(fat, 1, blocks, n);
    var p := c[..k];
    assert forall j :: 0 <= j < |p| ==> p[j] == c[j];
    if b != 0 {
      FreeAfterLinking(fat, p, b);
    }
    if k < |c| {
      assert c[k] !in p;
      FreeAfterLinking(fat, p, c[k]);
      InPrefix(c, k, b);
    } else if b != 0 {
      assert c == p;
      AllFreeTaken(fat, 1, blocks, n, b);
    }
  }

  /** When fewer than `n` blocks are free, LowestFree lists all of them. */
  lemma {:induction false} AllFreeTaken(fat: seq<u16>, b: nat, blocks: nat, n: nat, x: nat)
    requires blocks < |fat| && blocks <= MAX_BLOCKS
    requires b <= x <= blocks && fat[x] == FAT_FREE
    requires |LowestFree(fat, b, blocks, n)| < n
    ensures x in LowestFree(fat, b, blocks, n)
    decreases blocks - b
  {
    if x != b {
      AllFreeTaken(fat, b + 1, blocks, if fat[b] == FAT_FREE then n - 1 else n, x);
    }
  }
}
