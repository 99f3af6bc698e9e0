/** How a call of fs_write ends, as its caller and later readers see it. */
module SaveEnding {
  import opened Bytes

  /** `BlockFailed` is a drive error in the write of data block `n`, which then
      holds `tail`, whatever the drive made of it. */
  datatype Ending = Done | FlushFailed | Refused | OutOfSpace | BlockFailed(n: nat, tail: seq<byte>)

  /** The endings a write of `data` can have. */
  predicate Possible(data: seq<byte>, how: Ending) {
    match how
    case OutOfSpace => |data| > 0
    case BlockFailed(n, tail) => 512 * n < |data| && |tail| == Min(512, |data| - 512 * n)
    case _ => true
  }

  /** What the file reads as afterwards; an absent file reads as empty. */
  function Contents(before: seq<byte>, data: seq<byte>, how: Ending): seq<byte>
    requires Possible(data, how)
  {
    match how
    case Done => data
    case FlushFailed => data
    case Refused => before
    case OutOfSpace => []
    case BlockFailed(n, tail) => data[..512 * n] + tail
  }

  /** A save that was not refused leaves the data in the file if and only if the
      space sufficed and no block before the last failed, the last block holding
      its bytes even if its write failed. */
  predicate Keeps(data: seq<byte>, how: Ending) {
    match how
    case OutOfSpace => false
    case BlockFailed(n, tail) => |data| <= 512 * n + 512 && 512 * n <= |data| && tail == data[512 * n..]
    case _ => true
  }

  lemma KeepsIff(before: seq<byte>, data: seq<byte>, how: Ending)
    requires Possible(data, how) && !how.Refused?
    ensures Contents(before, data, how) == data <==> Keeps(data, how)
  {
    if how.BlockFailed? {
      var cut := data[..512 * how.n];
      assert data == cut + data[512 * how.n..];
      if |data| <= 512 * how.n + 512 && cut + how.tail == data {
        assert (cut + how.tail)[512 * how.n..] == how.tail;
      }
    }
  }
}
