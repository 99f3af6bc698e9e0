/** A FAT of which only the sectors below some entry are new, under the old
    directory: exactly when the volume is consistent, and what it then loses. */
module RpfsHalves {
  import opened Bytes
  import opened RpfsLayout
  import opened RpfsFat
  import opened RpfsVolume
  import opened RpfsSpace

  // --- a FAT that is new below a boundary -----------------------------------

  /** How many blocks of an ascending chain lie below `t`. */
  ghost function Cut(c: seq<u16>, t: nat): (n: nat)
    ensures n <= |c| && (forall k :: 0 <= k < n ==> c[k] < t) && (n < |c| ==> c[n] >= t)
  {
    if |c| == 0 || c[0] >= t then 0 else 1 + Cut(c[1..], t)
  }

  /** Those blocks, and those from `t` on. */
  ghost function Below(c: seq<u16>, t: nat): seq<u16> {
    c[..Cut(c, t)]
  }

  ghost function From(c: seq<u16>, t: nat): seq<u16> {
    c[Cut(c, t)..]
  }

  lemma CutSplits(c: seq<u16>, t: nat)
    requires Ascending(c)
    ensures forall k :: Cut(c, t) <= k < |c| ==> c[k] >= t
  {
    var n := Cut(c, t);
    assert forall k :: n < k < |c| ==> c[n] < c[k];
  }

  lemma Parts(c: seq<u16>, t: nat)
    requires Ascending(c)
    ensures c == Below(c, t) + From(c, t)
    ensures forall x :: x in Below(c, t) <==> x in c && x < t
    ensures forall x :: x in From(c, t) <==> x in c && x >= t
  {
    CutSplits(c, t);
    hide Cut;
    var n := Cut(c, t);
    forall x ensures (x in c[..n] <==> x in c && x < t) && (x in c[n..] <==> x in c && x >= t) {
      if x in c {
        var k :| 0 <= k < |c| && c[k] == x;
        if k < n {
          assert c[..n][k] == x;
        } else {
          assert c[n..][k - n] == x;
        }
      }
    }
  }

  /** What the FAT chains together when its entries below `t` are those of chain
      `c` and the others those of chain `was`. */
  ghost function Spliced(was: seq<u16>, c: seq<u16>, t: nat): seq<u16> {
    Below(c, t) + From(was, t)
  }

  /** Volume `m` has the new FAT below entry `t`, the old one from there on, and
      the old directory. */
  ghost predicate HalfFlushed(v: Volume, w: Volume, t: nat, m: Volume)
    requires v.Shaped() && |w.fat| == |v.fat|
  {
    && m.Shaped() && m.sb == v.sb && m.dir == v.dir
    && forall x :: 0 <= x < |v.fat| ==> m.fat[x] == if x < t then w.fat[x] else v.fat[x]
  }

  /** The first block from `t` on, or the end mark. */
  ghost function Onward(c: seq<u16>, t: nat): u16 {
    if |From(c, t)| > 0 then From(c, t)[0] else FAT_END
  }

  lemma OnwardNext(c: seq<u16>, t: nat, k: nat)
    requires k < |c|
    ensures k < |Below(c, t)| ==> c[k] == Below(c, t)[k]
    ensures k + 1 < |Below(c, t)| ==> Next(c, k) == Below(c, t)[k + 1]
    ensures k + 1 == |Below(c, t)| ==> Next(c, k) == Onward(c, t)
    ensures var n := |Below(c, t)|;
      k >= n ==> k - n < |From(c, t)| && c[k] == From(c, t)[k - n] && Next(c, k) == Next(From(c, t), k - n)
  {
    hide Cut;
  }

  /** Three tables: the old one, the new one in which chain `c` has taken the
      place of chain `was`, and one that changes over at entry `t`. */
  ghost predicate Halves(old_: seq<u16>, new_: seq<u16>, half: seq<u16>, was: seq<u16>, c: seq<u16>, t: nat) {
    && |old_| == |new_| == |half| && Ascending(was) && Ascending(c)
    && (forall p :: 0 <= p < |was| ==> IsBlock(was[p])) && (forall k :: 0 <= k < |c| ==> IsBlock(c[k]))
    && (forall p :: 0 <= p < |was| ==> was[p] < |old_| && old_[was[p]] == Next(was, p))
    && (forall k :: 0 <= k < |c| ==> c[k] < |old_| && new_[c[k]] == Next(c, k))
    && (forall x :: x in c && x !in was ==> x < |old_| && old_[x] == FAT_FREE)
    && (forall x :: 0 <= x < |old_| && x !in c ==> new_[x] == if x in was then FAT_FREE else old_[x])
    && (forall x :: 0 <= x < |old_| ==> half[x] == if x < t then new_[x] else old_[x])
  }

  lemma SplicedMembers(was: seq<u16>, c: seq<u16>, t: nat, x: u16)
    requires Ascending(was) && Ascending(c)
    ensures x in Spliced(was, c, t) <==> (x < t && x in c) || (x >= t && x in was)
  {
    Parts(c, t);
    Parts(was, t);
    hide Below, From;
    assert x in Spliced(was, c, t) <==> x in Below(c, t) || x in From(was, t);
  }

  /** The half-new table, entry by entry. */
  lemma HalfEntry(old_: seq<u16>, new_: seq<u16>, half: seq<u16>, was: seq<u16>, c: seq<u16>, t: nat, x: u16)
    requires Halves(old_, new_, half, was, c, t) && x < |old_|
    ensures x in c && x < t ==> exists k :: 0 <= k < |c| && c[k] == x && half[x] == Next(c, k)
    ensures x in was && x >= t ==> exists p :: 0 <= p < |was| && was[p] == x && half[x] == Next(was, p)
    ensures x in Spliced(was, c, t) ==> half[x] != FAT_FREE
    ensures (x in c || x in was) && x !in Spliced(was, c, t) ==> half[x] == FAT_FREE
    ensures x !in c && x !in was ==> half[x] == old_[x]
  {
    SplicedMembers(was, c, t, x);
    hide Spliced;
    if x in c && x < t {
      var k :| 0 <= k < |c| && c[k] == x;
      NextNotFree(c, k);
    }
    if x in was && x >= t {
      var p :| 0 <= p < |was| && was[p] == x;
      NextNotFree(was, p);
    }
  }

  lemma NextNotFree(c: seq<u16>, k: nat)
    requires Ascending(c) && k < |c|
    ensures Next(c, k) != FAT_FREE
  {
    assert k + 1 < |c| ==> c[k] < c[k + 1];
  }

  /** What is known of the new chain. */
  lemma NewChain(v: Volume, w: Volume, i: nat, e: Dirent, c: seq<u16>)
    requires i < FS_DIR_ENTRIES && v.Shaped() && ReplacesSlot(v, w, i, e, c)
    ensures Ascending(c) && |w.fat| == |v.fat|
    ensures forall k :: 0 <= k < |c| ==> 1 <= c[k] <= v.sb.dataBlocks < |v.fat| && IsBlock(c[k])
    ensures forall x :: x in c && x !in v.ChainOf(i) ==> x < |v.fat| && v.fat[x] == FAT_FREE
  {
    forall x | x in c && x !in v.ChainOf(i) ensures x < |v.fat| && v.fat[x] == FAT_FREE {
      var k :| 0 <= k < |c| && c[k] == x;
      assert Cleared(v.fat, v.ChainOf(i))[c[k]] == FAT_FREE;
    }
  }

  lemma VolumeHalves(v: Volume, w: Volume, i: nat, e: Dirent, c: seq<u16>, t: nat, m: Volume)
    requires i < FS_DIR_ENTRIES && v.Shaped() && ReplacesSlot(v, w, i, e, c) && HalfFlushed(v, w, t, m)
    requires Inv(v)
    ensures Halves(v.fat, w.fat, m.fat, v.ChainOf(i), c, t)
  {
    hide Inv, Chain, Linked, Cleared, Ascending, ReplacesSlot;
    ReplacedFat(v, w, i, e, c);
    OldChain(v, i);
    NewChain(v, w, i, e, c);
  }

  lemma OldChain(v: Volume, i: nat)
    requires Inv(v) && i < FS_DIR_ENTRIES
    ensures Ascending(v.ChainOf(i))
    ensures forall p :: 0 <= p < |v.ChainOf(i)| ==>
      1 <= v.ChainOf(i)[p] <= v.sb.dataBlocks && IsBlock(v.ChainOf(i)[p])
      && v.fat[v.ChainOf(i)[p]] == Next(v.ChainOf(i), p)
    ensures Used(v.dir[i]) ==> v.dir[i].first == Head(v.ChainOf(i))
  {
    assert SlotOk(v, i);
  }

  lemma SplicedAscends(was: seq<u16>, c: seq<u16>, t: nat)
    requires Ascending(was) && Ascending(c)
    ensures Ascending(Spliced(was, c, t))
  {
    Parts(was, t);
    Parts(c, t);
    PartsAscend(was, t);
    PartsAscend(c, t);
    hide Below, From, Ascending;
    var b, f := Below(c, t), From(was, t);
    forall j, k | 0 <= j < |b| && 0 <= k < |f| ensures b[j] < f[k] {
      assert b[j] in b && f[k] in f;
    }
    JoinedAscends(b, f);
  }

  lemma JoinedAscends(b: seq<u16>, f: seq<u16>)
    requires Ascending(b) && Ascending(f) && forall j, k :: 0 <= j < |b| && 0 <= k < |f| ==> b[j] < f[k]
    ensures Ascending(b + f)
  {
  }

  lemma PartsAscend(c: seq<u16>, t: nat)
    requires Ascending(c)
    ensures Ascending(Below(c, t)) && Ascending(From(c, t))
  {
    hide Cut;
  }

  lemma SplicedInRange(v: Volume, w: Volume, i: nat, e: Dirent, c: seq<u16>, t: nat)
    requires i < FS_DIR_ENTRIES && v.Shaped() && ReplacesSlot(v, w, i, e, c)
    requires Inv(v)
    ensures var s := Spliced(v.ChainOf(i), c, t);
      forall k :: 0 <= k < |s| ==> 1 <= s[k] <= v.sb.dataBlocks && Cleared(v.fat, v.ChainOf(i))[s[k]] == FAT_FREE
  {
    OldChain(v, i);
    hide Inv;
    var was := v.ChainOf(i);
    var s := Spliced(was, c, t);
    forall k | 0 <= k < |s| ensures 1 <= s[k] <= v.sb.dataBlocks && Cleared(v.fat, was)[s[k]] == FAT_FREE {
      assert s[k] in s;
      SplicedMembers(was, c, t, s[k]);
      if s[k] in c {
        var j :| 0 <= j < |c| && c[j] == s[k];
      } else {
        var j :| 0 <= j < |was| && was[j] == s[k];
      }
    }
  }

  // --- the old entry's chain in the half-new table --------------------------

  /** Where `x` first stands in `c`, or |c|. */
  ghost function IndexIn(c: seq<u16>, x: u16): (k: nat)
    ensures k <= |c| && (k < |c| <==> x in c) && (k < |c| ==> c[k] == x)
  {
    if |c| == 0 || c[0] == x then 0 else 1 + IndexIn(c[1..], x)
  }

  /** The old entry leads to a complete chain: its first block's link is still
      the old one, or that block belongs to the new chain as well, which then
      either ends below the boundary or crosses it into a block of the old one. */
  ghost predicate Joins(was: seq<u16>, c: seq<u16>, t: nat) {
    |was| == 0 || was[0] >= t || (was[0] in c && (Onward(c, t) == FAT_END || Onward(c, t) in was))
  }

  /** The blocks of `was` from `y` on. */
  ghost function Rest(was: seq<u16>, y: u16): seq<u16> {
    if y == FAT_END then [] else was[IndexIn(was, y)..]
  }

  /** That chain. */
  ghost function Joined(was: seq<u16>, c: seq<u16>, t: nat): seq<u16> {
    if |was| == 0 || was[0] >= t then was
    else
      var k, n := IndexIn(c, was[0]), |Below(c, t)|;
      c[Min(k, n)..n] + Rest(was, Onward(c, t))
  }

  lemma AllFrom(was: seq<u16>, t: nat)
    requires Ascending(was) && (|was| == 0 || was[0] >= t)
    ensures forall p :: 0 <= p < |was| ==> was[p] >= t
  {
    assert forall p :: 0 < p < |was| ==> was[0] < was[p];
  }

  /** The piece of the new chain: it starts with the old first block, stays below
      the boundary, and its last block links to `Onward`. */
  lemma FirstPiece(was: seq<u16>, c: seq<u16>, t: nat)
    requires Ascending(c) && |was| > 0 && was[0] < t && was[0] in c
    ensures var k, n := IndexIn(c, was[0]), |Below(c, t)|;
      && k < n <= |c| && c[k] == was[0] && (forall j :: 0 <= j < n ==> c[j] < t)
      && Next(c, n - 1) == Onward(c, t)
      && (Onward(c, t) != FAT_END ==> Onward(c, t) in c && Onward(c, t) >= t)
  {
    Parts(c, t);
    CutSplits(c, t);
    hide Cut;
    var k, n := IndexIn(c, was[0]), |Below(c, t)|;
    assert forall j :: 0 <= j < n ==> Below(c, t)[j] == c[j] && c[j] in Below(c, t);
    OnwardNext(c, t, n - 1);
    if |From(c, t)| > 0 {
      assert From(c, t)[0] in From(c, t);
    }
  }

  /** The table links the blocks of `s` one to the next. */
  ghost predicate Follows(fat: seq<u16>, s: seq<u16>) {
    forall k :: 0 <= k < |s| ==> s[k] < |fat| && fat[s[k]] == Next(s, k)
  }

  /** The rest of the old chain. */
  lemma RestFollows(half: seq<u16>, was: seq<u16>, y: u16, t: nat)
    requires Ascending(was) && (y == FAT_END || (y in was && y >= t))
    requires forall p :: 0 <= p < |was| && was[p] >= t ==> was[p] < |half| && half[was[p]] == Next(was, p)
    ensures var f := Rest(was, y);
      && Ascending(f) && Follows(half, f) && y == (if |f| > 0 then f[0] else FAT_END)
      && (forall j :: 0 <= j < |f| ==> f[j] >= t) && (forall j :: 0 <= j < |f| ==> f[j] in was)
  {
    if y != FAT_END {
      TailFollows(half, was, IndexIn(was, y), t);
    }
  }

  lemma TailFollows(half: seq<u16>, was: seq<u16>, p: nat, t: nat)
    requires Ascending(was) && p < |was| && was[p] >= t
    requires forall q :: 0 <= q < |was| && was[q] >= t ==> was[q] < |half| && half[was[q]] == Next(was, q)
    ensures var f := was[p..];
      && Ascending(f) && Follows(half, f)
      && (forall j :: 0 <= j < |f| ==> f[j] >= t) && (forall j :: 0 <= j < |f| ==> f[j] in was)
  {
    var f := was[p..];
    forall j | 0 <= j < |f| ensures f[j] >= t && f[j] < |half| && half[f[j]] == Next(f, j) {
      assert was[p + j] == f[j] && Next(f, j) == Next(was, p + j);
      assert j > 0 ==> was[p] < was[p + j];
    }
  }

  lemma JoinFollows(half: seq<u16>, b: seq<u16>, f: seq<u16>, y: u16)
    requires |b| > 0 && Follows(half, f) && y == (if |f| > 0 then f[0] else FAT_END)
    requires forall j :: 0 <= j < |b| ==> b[j] < |half| && half[b[j]] == if j + 1 < |b| then b[j + 1] else y
    ensures Follows(half, b + f)
  {
    hide Next;
    var s := b + f;
    forall j | 0 <= j < |s| ensures s[j] < |half| && half[s[j]] == Next(s, j) {
      NextJoined(b, f, y, j);
      if j >= |b| {
        assert half[f[j - |b|]] == Next(f, j - |b|);
      }
    }
  }

  /** The links of two lists put together. */
  lemma NextJoined(b: seq<u16>, f: seq<u16>, y: u16, j: nat)
    requires j < |b + f| && y == (if |f| > 0 then f[0] else FAT_END)
    ensures j < |b| ==> (b + f)[j] == b[j] && Next(b + f, j) == if j + 1 < |b| then b[j + 1] else y
    ensures j >= |b| ==> (b + f)[j] == f[j - |b|] && Next(b + f, j) == Next(f, j - |b|)
  {
  }

  lemma JoinedFollows(old_: seq<u16>, new_: seq<u16>, half: seq<u16>, was: seq<u16>, c: seq<u16>, t: nat)
    requires Halves(old_, new_, half, was, c, t) && Joins(was, c, t)
    ensures var s := Joined(was, c, t);
      && Head(s) == Head(was) && Ascending(s) && Follows(half, s)
      && forall k :: 0 <= k < |s| ==> s[k] in c || s[k] in was
  {
    if |was| == 0 || was[0] >= t {
      AllFrom(was, t);
    } else {
      PiecesFollow(old_, new_, half, was, c, t);
    }
  }

  lemma PiecesFollow(old_: seq<u16>, new_: seq<u16>, half: seq<u16>, was: seq<u16>, c: seq<u16>, t: nat)
    requires Halves(old_, new_, half, was, c, t) && |was| > 0 && was[0] < t && Joins(was, c, t)
    ensures var s := Joined(was, c, t);
      && Head(s) == Head(was) && Ascending(s) && Follows(half, s)
      && forall k :: 0 <= k < |s| ==> s[k] in c || s[k] in was
  {
    hide IndexIn, Below, Onward, Rest, Follows, Ascending, Halves, Joined, Next;
    HalfIsOld(old_, new_, half, was, c, t);
    HalfIsNew(old_, new_, half, was, c, t);
    FirstPiece(was, c, t);
    JoinedSplit(was, c, t);
    RestFollows(half, was, Onward(c, t), t);
    TwoPieces(half, c, was, IndexIn(c, was[0]), |Below(c, t)|, Rest(was, Onward(c, t)), Onward(c, t), t);
  }

  /** A piece of `c` below the boundary, linked to a list of blocks above it. */
  lemma TwoPieces(half: seq<u16>, c: seq<u16>, was: seq<u16>, k: nat, n: nat, f: seq<u16>, y: u16, t: nat)
    requires Ascending(c) && k < n <= |c| && Next(c, n - 1) == y
    requires forall j :: 0 <= j < n ==> c[j] < t
    requires forall j :: 0 <= j < |c| && c[j] < t ==> c[j] < |half| && half[c[j]] == Next(c, j)
    requires Ascending(f) && Follows(half, f) && y == (if |f| > 0 then f[0] else FAT_END)
    requires (forall j :: 0 <= j < |f| ==> f[j] >= t) && (forall j :: 0 <= j < |f| ==> f[j] in was)
    ensures var s := c[k..n] + f;
      && Head(s) == c[k] && Ascending(s) && Follows(half, s)
      && forall j :: 0 <= j < |s| ==> s[j] in c || s[j] in was
  {
    hide Follows, Ascending, Next;
    var b := c[k..n];
    PieceOf(half, c, k, n, y);
    JoinFollows(half, b, f, y);
    assert forall j :: 0 <= j < |b| ==> b[j] == c[k + j];
    JoinedAscends(b, f);
    assert forall j :: 0 <= j < |b + f| ==> (b + f)[j] == if j < |b| then b[j] else f[j - |b|];
  }

  lemma JoinedSplit(was: seq<u16>, c: seq<u16>, t: nat)
    requires |was| > 0 && was[0] < t && IndexIn(c, was[0]) < |Below(c, t)|
    ensures Joined(was, c, t) == c[IndexIn(c, was[0])..|Below(c, t)|] + Rest(was, Onward(c, t))
  {
  }

  lemma PieceOf(half: seq<u16>, c: seq<u16>, k: nat, n: nat, y: u16)
    requires Ascending(c) && k < n <= |c| && Next(c, n - 1) == y
    requires forall j :: 0 <= j < n ==> c[j] < |half| && half[c[j]] == Next(c, j)
    ensures var b := c[k..n];
      && Ascending(b)
      && forall j :: 0 <= j < |b| ==> b[j] < |half| && half[b[j]] == if j + 1 < |b| then b[j + 1] else y
  {
    var b := c[k..n];
    forall j | 0 <= j < |b| ensures b[j] < |half| && half[b[j]] == if j + 1 < |b| then b[j + 1] else y {
      assert b[j] == c[k + j] && half[c[k + j]] == Next(c, k + j);
    }
  }

  lemma HalfIsOld(old_: seq<u16>, new_: seq<u16>, half: seq<u16>, was: seq<u16>, c: seq<u16>, t: nat)
    requires Halves(old_, new_, half, was, c, t)
    ensures Ascending(was)
    ensures forall p :: 0 <= p < |was| && was[p] >= t ==> was[p] < |half| && half[was[p]] == Next(was, p)
  {
  }

  lemma HalfIsNew(old_: seq<u16>, new_: seq<u16>, half: seq<u16>, was: seq<u16>, c: seq<u16>, t: nat)
    requires Halves(old_, new_, half, was, c, t)
    ensures Ascending(c)
    ensures forall k :: 0 <= k < |c| && c[k] < t ==> c[k] < |half| && half[c[k]] == Next(c, k)
  {
  }

  // --- only such a chain ----------------------------------------------------

  lemma FollowsOn(fat: seq<u16>, s: seq<u16>, k: nat)
    requires Follows(fat, s) && k < |s|
    ensures s[k] < |fat| && (IsBlock(fat[s[k]]) ==> k + 1 < |s| && s[k + 1] == fat[s[k]])
  {
  }

  /** The first `n` links of the chain stand in the table. */
  ghost predicate Begins(fat: seq<u16>, c: seq<u16>, n: nat) {
    n <= |c| && forall q :: 0 <= q < n ==> IsBlock(c[q]) && c[q] < |fat| && fat[c[q]] == Next(c, q)
  }

  lemma BeginsAt(fat: seq<u16>, c: seq<u16>, n: nat, q: nat)
    requires Begins(fat, c, n) && q < n
    ensures q < |c| && IsBlock(c[q]) && c[q] < |fat| && fat[c[q]] == Next(c, q)
  {
  }

  /** A chain through the half-new table repeats the new one below the boundary. */
  lemma {:induction false} RepeatsNew(half: seq<u16>, c: seq<u16>, d: seq<u16>, k: nat, n: nat, j: nat)
    requires k + j < n <= |c| && |d| > 0 && d[0] == c[k] && Follows(half, d) && Begins(half, c, n)
    ensures j < |d| && d[j] == c[k + j]
    decreases j
  {
    hide Follows, Begins, IsBlock;
    if j > 0 {
      RepeatsNew(half, c, d, k, n, j - 1);
      BeginsAt(half, c, n, k + j - 1);
      BeginsAt(half, c, n, k + j);
      FollowsOn(half, d, j - 1);
    }
  }

  /** A complete chain behind the old entry is only there if the pieces join. */
  lemma FollowsJoins(old_: seq<u16>, new_: seq<u16>, half: seq<u16>, was: seq<u16>, c: seq<u16>, t: nat, d: seq<u16>)
    requires Halves(old_, new_, half, was, c, t) && Follows(half, d) && Ascending(d) && Head(d) == Head(was)
    ensures Joins(was, c, t)
  {
    hide Halves, IndexIn, Below, Onward, Follows, Begins, Ascending;
    if |was| > 0 && was[0] < t {
      BlockOf(old_, new_, half, was, c, t, was[0]);
      NotFreed(half, d, 0);
      HalfFreed(old_, new_, half, was, c, t, was[0]);
      FirstPiece(was, c, t);
      var k, n, y := IndexIn(c, was[0]), |Below(c, t)|, Onward(c, t);
      NewBegins(old_, new_, half, was, c, t, n);
      RepeatsNew(half, c, d, k, n, n - 1 - k);
      BeginsAt(half, c, n, n - 1);
      if y != FAT_END {
        BlockOf(old_, new_, half, was, c, t, y);
        FollowsOn(half, d, n - 1 - k);
        NotFreed(half, d, n - k);
        HalfFreed(old_, new_, half, was, c, t, y);
      }
    }
  }

  lemma NotFreed(half: seq<u16>, d: seq<u16>, k: nat)
    requires Follows(half, d) && Ascending(d) && k < |d|
    ensures d[k] < |half| && half[d[k]] != FAT_FREE
  {
    NextNotFree(d, k);
  }

  lemma BlockOf(old_: seq<u16>, new_: seq<u16>, half: seq<u16>, was: seq<u16>, c: seq<u16>, t: nat, x: u16)
    requires Halves(old_, new_, half, was, c, t) && (x in was || x in c)
    ensures IsBlock(x)
  {
  }

  /** Which blocks of the two chains the half-new table frees. */
  lemma HalfFreed(old_: seq<u16>, new_: seq<u16>, half: seq<u16>, was: seq<u16>, c: seq<u16>, t: nat, x: u16)
    requires Halves(old_, new_, half, was, c, t) && x < |half| && half[x] != FAT_FREE
    ensures Ascending(c) && (x < t && x in was ==> x in c)
    ensures x >= t && x in c ==> x in was
  {
  }

  lemma NewBegins(old_: seq<u16>, new_: seq<u16>, half: seq<u16>, was: seq<u16>, c: seq<u16>, t: nat, n: nat)
    requires Halves(old_, new_, half, was, c, t) && n <= |c| && forall j :: 0 <= j < n ==> c[j] < t
    ensures Begins(half, c, n)
  {
    hide IsBlock, Ascending;
  }

  // --- the half-flushed volume ----------------------------------------------

  /** What slot `i` needs for the half-flushed volume to be consistent. */
  ghost predicate Rejoins(v: Volume, i: nat, c: seq<u16>, t: nat)
    requires i < |v.dir|
  {
    Used(v.dir[i]) ==> Joins(v.ChainOf(i), c, t)
  }

  /** The slot's chain then. */
  ghost function RejoinedChain(v: Volume, i: nat, c: seq<u16>, t: nat): seq<u16>
    requires i < |v.dir|
  {
    if Used(v.dir[i]) then Joined(v.ChainOf(i), c, t) else []
  }

  /** Other files keep their chains in a half-flushed volume. */
  lemma HalfOthers(v: Volume, w: Volume, i: nat, e: Dirent, c: seq<u16>, t: nat, m: Volume, j: nat)
    requires i < FS_DIR_ENTRIES && v.Shaped() && ReplacesSlot(v, w, i, e, c) && HalfFlushed(v, w, t, m)
    requires j < FS_DIR_ENTRIES && j != i
    requires Inv(v)
    ensures m.ChainOf(j) == v.ChainOf(j) && SlotOk(m, j)
    ensures forall x :: x in v.ChainOf(j) ==> x !in c && x !in v.ChainOf(i)
  {
    var d := v.ChainOf(j);
    assert SlotOk(v, j);
    forall x | x in d ensures x < |v.fat| && m.fat[x] == v.fat[x] && x !in c && x !in v.ChainOf(i) {
      OthersKeepBlocks(v, w, i, e, c, j, x);
    }
    hide Inv, ReplacesSlot;
    if Used(v.dir[j]) {
      assert forall k :: 0 <= k < |d| ==> d[k] in d;
      assert IsChain(m.fat, m.sb.dataBlocks, m.dir[j].first, d);
      ChainUnique(m.fat, m.sb.dataBlocks, m.dir[j].first, d);
    }
  }

  lemma HalfSlot(v: Volume, w: Volume, i: nat, e: Dirent, c: seq<u16>, t: nat, m: Volume)
    requires i < FS_DIR_ENTRIES && v.Shaped() && ReplacesSlot(v, w, i, e, c) && HalfFlushed(v, w, t, m)
    requires Rejoins(v, i, c, t)
    requires Inv(v)
    ensures m.ChainOf(i) == RejoinedChain(v, i, c, t) && SlotOk(m, i)
    ensures forall x :: x in m.ChainOf(i) ==> x in c || x in v.ChainOf(i)
  {
    hide Inv, ReplacesSlot, Chain, Joins, Joined;
    VolumeHalves(v, w, i, e, c, t, m);
    OldChain(v, i);
    NewChain(v, w, i, e, c);
    var s := RejoinedChain(v, i, c, t);
    if Used(v.dir[i]) {
      JoinedFollows(v.fat, w.fat, m.fat, v.ChainOf(i), c, t);
      hide Halves;
      forall k | 0 <= k < |s| ensures 1 <= s[k] <= v.sb.dataBlocks {
        if s[k] in c {
          var j :| 0 <= j < |c| && c[j] == s[k];
        } else {
          var j :| 0 <= j < |v.ChainOf(i)| && v.ChainOf(i)[j] == s[k];
        }
      }
      ChainUnique(m.fat, m.sb.dataBlocks, m.dir[i].first, s);
    }
  }

  lemma HalfDisjoint(v: Volume, w: Volume, i: nat, e: Dirent, c: seq<u16>, t: nat, m: Volume)
    requires i < FS_DIR_ENTRIES && v.Shaped() && ReplacesSlot(v, w, i, e, c) && HalfFlushed(v, w, t, m)
    requires forall x :: x in m.ChainOf(i) ==> x in c || x in v.ChainOf(i)
    requires Inv(v)
    ensures ChainsDisjoint(m)
  {
    forall p, q, x | 0 <= p < FS_DIR_ENTRIES && 0 <= q < FS_DIR_ENTRIES && p != q && x in m.ChainOf(p)
      ensures x !in m.ChainOf(q)
    {
      if p != i {
        HalfOthers(v, w, i, e, c, t, m, p);
      }
      if q != i {
        HalfOthers(v, w, i, e, c, t, m, q);
      }
    }
  }

  lemma HalfLinks(v: Volume, w: Volume, i: nat, e: Dirent, c: seq<u16>, t: nat, m: Volume)
    requires i < FS_DIR_ENTRIES && v.Shaped() && ReplacesSlot(v, w, i, e, c) && HalfFlushed(v, w, t, m)
    requires Inv(v)
    ensures LinksOk(m.fat, m.sb.dataBlocks)
  {
    ReplaceKeepsLinks(v, w, i, e, c);
    hide ReplacesSlot;
    forall x | 0 <= x < |m.fat| && IsBlock(m.fat[x]) ensures m.fat[x] <= m.sb.dataBlocks {
      assert m.fat[x] == if x < t then w.fat[x] else v.fat[x];
    }
  }

  /** A FAT flushed up to entry `t`, the directory not yet: the volume is
      consistent if and only if the old entry still leads to a complete chain,
      and then that is the slot's chain, the others being what they were. */
  lemma HalfFlushedIff(v: Volume, w: Volume, i: nat, e: Dirent, c: seq<u16>, t: nat, m: Volume)
    requires i < FS_DIR_ENTRIES && v.Shaped() && ReplacesSlot(v, w, i, e, c) && HalfFlushed(v, w, t, m)
    requires Inv(v)
    ensures Inv(m) <==> Rejoins(v, i, c, t)
    ensures Inv(m) ==> m.ChainOf(i) == RejoinedChain(v, i, c, t)
    ensures forall j :: 0 <= j < FS_DIR_ENTRIES && j != i ==> m.ChainOf(j) == v.ChainOf(j)
  {
    hide Inv, ReplacesSlot, Joins, Joined, Chain, SlotOk, Halves;
    forall j | 0 <= j < FS_DIR_ENTRIES && j != i ensures m.ChainOf(j) == v.ChainOf(j) && SlotOk(m, j) {
      HalfOthers(v, w, i, e, c, t, m, j);
    }
    if Rejoins(v, i, c, t) {
      HalfSlot(v, w, i, e, c, t, m);
      HalfDisjoint(v, w, i, e, c, t, m);
      HalfLinks(v, w, i, e, c, t, m);
      SameNamesInv(v, m);
    }
    if Inv(m) && Used(v.dir[i]) {
      VolumeHalves(v, w, i, e, c, t, m);
      OldChain(v, i);
      OldChain(m, i);
      FollowsJoins(v.fat, w.fat, m.fat, v.ChainOf(i), c, t, m.ChainOf(i));
    }
  }

  lemma SameNamesInv(v: Volume, m: Volume)
    requires Inv(v) && m.Shaped() && m.dir == v.dir
    requires (forall j :: 0 <= j < FS_DIR_ENTRIES ==> SlotOk(m, j)) && ChainsDisjoint(m)
    requires LinksOk(m.fat, m.sb.dataBlocks)
    ensures Inv(m)
  {
    hide SlotOk, ChainsDisjoint, LinksOk;
  }

  /** What it loses: the blocks whose entries are in use but that the slot's
      chain does not reach. */
  lemma HalfCapacity(v: Volume, w: Volume, i: nat, e: Dirent, c: seq<u16>, t: nat, m: Volume)
    requires i < FS_DIR_ENTRIES && v.Shaped() && ReplacesSlot(v, w, i, e, c) && HalfFlushed(v, w, t, m)
    requires Rejoins(v, i, c, t)
    requires Inv(v)
    ensures Capacity(m) + |Spliced(v.ChainOf(i), c, t)| == Capacity(v) + |m.ChainOf(i)|
  {
    assert SlotOk(v, i);
    hide ReplacesSlot, Joins, Joined, Chain, Inv, FreeCount, Spliced, Cleared, SlotOk;
    HalfFlushedIff(v, w, i, e, c, t, m);
    HalfFree(v, w, i, e, c, t, m);
    ClearedCount(v, i);
    ChainTotalReplaced(v, m, i, |v.dir|);
  }

  lemma HalfFree(v: Volume, w: Volume, i: nat, e: Dirent, c: seq<u16>, t: nat, m: Volume)
    requires i < FS_DIR_ENTRIES && v.Shaped() && ReplacesSlot(v, w, i, e, c) && HalfFlushed(v, w, t, m)
    requires Inv(v)
    ensures FreeCount(Cleared(v.fat, v.ChainOf(i)), 1, v.sb.dataBlocks)
         == FreeBlocks(m) + |Spliced(v.ChainOf(i), c, t)|
  {
    hide Inv, Chain, FreeCount, ReplacesSlot, Halves, Spliced, Cleared, Ascending;
    var was, blocks := v.ChainOf(i), v.sb.dataBlocks;
    var s, dropped := Spliced(was, c, t), Cleared(v.fat, was);
    VolumeHalves(v, w, i, e, c, t, m);
    OldChain(v, i);
    HalvesAscend(v.fat, w.fat, m.fat, was, c, t);
    SplicedInRange(v, w, i, e, c, t);
    SplicedAscends(was, c, t);
    forall x: u16 | 1 <= x <= blocks
      ensures x in s ==> m.fat[x] != FAT_FREE
      ensures x !in s ==> (m.fat[x] == FAT_FREE <==> dropped[x] == FAT_FREE)
    {
      HalfTaken(v, w, i, e, c, t, m, x);
    }
    assert forall k :: 0 <= k < |s| ==> s[k] in s;
    FreeCountChange(m.fat, dropped, s, 1, blocks);
  }

  lemma HalvesAscend(old_: seq<u16>, new_: seq<u16>, half: seq<u16>, was: seq<u16>, c: seq<u16>, t: nat)
    requires Halves(old_, new_, half, was, c, t)
    ensures Ascending(was) && Ascending(c)
  {
  }

  /** A block is taken in the half-new table if it is spliced in or another file's. */
  lemma HalfTaken(v: Volume, w: Volume, i: nat, e: Dirent, c: seq<u16>, t: nat, m: Volume, x: u16)
    requires i < FS_DIR_ENTRIES && v.Shaped() && ReplacesSlot(v, w, i, e, c) && HalfFlushed(v, w, t, m)
    requires x <= v.sb.dataBlocks < |v.fat| && Halves(v.fat, w.fat, m.fat, v.ChainOf(i), c, t)
    ensures var s, dropped := Spliced(v.ChainOf(i), c, t), Cleared(v.fat, v.ChainOf(i));
      && (x in s ==> m.fat[x] != FAT_FREE)
      && (x !in s ==> (m.fat[x] == FAT_FREE <==> dropped[x] == FAT_FREE))
  {
    HalfEntry(v.fat, w.fat, m.fat, v.ChainOf(i), c, t, x);
    hide Spliced, Halves;
    if x in c {
      NewChainCleared(v, w, i, e, c, x);
    }
  }

  lemma NewChainCleared(v: Volume, w: Volume, i: nat, e: Dirent, c: seq<u16>, x: u16)
    requires i < FS_DIR_ENTRIES && v.Shaped() && ReplacesSlot(v, w, i, e, c) && x in c
    ensures x < |v.fat| && Cleared(v.fat, v.ChainOf(i))[x] == FAT_FREE
  {
    var k :| 0 <= k < |c| && c[k] == x;
  }
}
