/** The ATA drive as the filesystem sees it: an array of 512-byte sectors. */
module Drives {
  import opened Bytes

  type Sector = s: seq<byte> | |s| == 512 witness seq(512, _ => 0)

  /** One sector write that reached the platter. */
  datatype SectorWrite = SectorWrite(lba: nat, data: Sector)

  /** The platter after the given writes, oldest first. */
  ghost function Replay(disk: seq<Sector>, log: seq<SectorWrite>): (after: seq<Sector>)
    ensures |after| == |disk|
  {
    if |log| == 0 then
      disk
    else
      var before := Replay(disk, log[..|log| - 1]);
      var w := log[|log| - 1];
      if w.lba < |before| then before[w.lba := w.data] else before
  }

  lemma {:induction false} ReplayConcat(disk: seq<Sector>, a: seq<SectorWrite>, b: seq<SectorWrite>)
    ensures Replay(disk, a + b) == Replay(Replay(disk, a), b)
    decreases |b|
  {
    if |b| == 0 {
      assert a + b == a;
    } else {
      var b' := b[..|b| - 1];
      assert (a + b)[..|a + b| - 1] == a + b';
      ReplayConcat(disk, a, b');
    }
  }

  /** A sector no write addresses keeps its contents. */
  lemma {:induction false} ReplayMisses(disk: seq<Sector>, log: seq<SectorWrite>, lba: nat)
    requires lba < |disk|
    requires forall k :: 0 <= k < |log| ==> log[k].lba != lba
    ensures Replay(disk, log)[lba] == disk[lba]
  {
    if |log| > 0 {
      ReplayMisses(disk, log[..|log| - 1], lba);
    }
  }

  /** A sector whose last write is number `k` holds the data of that write. */
  lemma {:induction false} ReplayHits(disk: seq<Sector>, log: seq<SectorWrite>, k: nat, lba: nat, data: Sector)
    requires k < |log| && log[k] == SectorWrite(lba, data) && lba < |disk|
    requires forall m :: k < m < |log| ==> log[m].lba != lba
    ensures Replay(disk, log)[lba] == data
  {
    if k < |log| - 1 {
      ReplayHits(disk, log[..|log| - 1], k, lba, data);
    }
  }

  /** A log that writes consecutive sectors from `start`. */
  ghost predicate Consecutive(log: seq<SectorWrite>, start: nat) {
    forall k :: 0 <= k < |log| ==> log[k].lba == start + k
  }

  /** After such a log those sectors hold what was written, and no other sector changed. */
  lemma {:induction false} ReplayConsecutive(disk: seq<Sector>, log: seq<SectorWrite>, start: nat)
    requires Consecutive(log, start) && start + |log| <= |disk|
    ensures var after := Replay(disk, log);
      && (forall k :: 0 <= k < |log| ==> after[start + k] == log[k].data)
      && (forall l :: 0 <= l < |disk| && !(start <= l < start + |log|) ==> after[l] == disk[l])
  {
    if |log| > 0 {
      ReplayConsecutive(disk, log[..|log| - 1], start);
    }
  }

  /** Writing one run of sectors and then another, further up the drive. */
  lemma ReplayTwoRegions(disk: seq<Sector>, a: seq<SectorWrite>, p: nat, b: seq<SectorWrite>, q: nat)
    requires Consecutive(a, p) && Consecutive(b, q) && p + |a| <= q && q + |b| <= |disk|
    ensures var after := Replay(disk, a + b);
      && (forall k :: 0 <= k < |a| ==> after[p + k] == a[k].data)
      && (forall k :: 0 <= k < |b| ==> after[q + k] == b[k].data)
      && (forall l :: 0 <= l < |disk| && !(p <= l < p + |a|) && !(q <= l < q + |b|) ==> after[l] == disk[l])
  {
    ReplayConcat(disk, a, b);
    ReplayConsecutive(disk, a, p);
    ReplayConsecutive(Replay(disk, a), b, q);
  }

  /** The drive. `reliable` drives never report an error; any other drive may
      fail a command, and a failed write may or may not have reached the
      platter (the cache flush that ends a write is what can time out). */
  class Drive {
    const reliable: bool
    ghost const image: seq<Sector>
    var sectors: seq<Sector>
    ghost var log: seq<SectorWrite>

    /** The platter is the initial image with the logged writes applied. */
    ghost predicate Valid()
      reads this
    {
      sectors == Replay(image, log)
    }

    constructor (image: seq<Sector>, reliable: bool)
      ensures Valid()
      ensures sectors == image && log == [] && this.reliable == reliable
    {
      sectors, this.image, this.reliable := image, image, reliable;
      log := [];
    }

    method Read(lba: nat) returns (ok: bool, data: Sector)
      requires lba < |sectors|
      ensures reliable ==> ok
      ensures ok ==> data == sectors[lba]
    {
      data := sectors[lba];
      ok := *;
      if reliable {
        ok := true;
      }
    }

    method Write(lba: nat, data: Sector) returns (ok: bool)
      requires Valid() && lba < |sectors|
      modifies this
      ensures Valid() && |sectors| == old(|sectors|)
      ensures reliable ==> ok
      ensures ok ==> log == old(log) + [SectorWrite(lba, data)]
      ensures !ok ==> log == old(log) || log == old(log) + [SectorWrite(lba, data)]
    {
      ok := *;
      var reached: bool := *;
      if reliable {
        ok := true;
      }
      if ok || reached {
        sectors := sectors[lba := data];
        log := log + [SectorWrite(lba, data)];
        assert log[..|log| - 1] == old(log);
      }
    }
  }
}
