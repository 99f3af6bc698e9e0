/** Machine integers and the little-endian byte images the on-disk structures are made of. */
module Bytes {

  type byte = x: int | 0 <= x < 0x100
  type u16 = x: int | 0 <= x < 0x1_0000
  type u32 = x: int | 0 <= x < 0x1_0000_0000

  /** A C string argument: the bytes before the terminating NUL. */
  type CString = s: seq<byte> | forall k :: 0 <= k < |s| ==> s[k] != 0

  /** The larger of two integers. */
  function Max(a: int, b: int): int {
    if a > b then a else b
  }

  /** The smaller of two integers. */
  function Min(a: int, b: int): int {
    if a < b then a else b
  }

  function Zeros(n: nat): (z: seq<byte>)
    ensures |z| == n
    ensures forall k :: 0 <= k < n ==> z[k] == 0
  {
    seq(n, _ => 0)
  }

  function Encode16(x: u16): (b: seq<byte>)
    ensures |b| == 2
  {
    [x % 0x100, x / 0x100]
  }

  function Decode16(b: seq<byte>): u16
    requires |b| == 2
  {
    b[0] as int + 0x100 * b[1] as int
  }

  function Encode32(x: u32): (b: seq<byte>)
    ensures |b| == 4
  {
    [x % 0x100, x / 0x100 % 0x100, x / 0x1_0000 % 0x100, x / 0x100_0000]
  }

  function Decode32(b: seq<byte>): u32
    requires |b| == 4
  {
    b[0] as int + 0x100 * b[1] as int + 0x1_0000 * b[2] as int + 0x100_0000 * b[3] as int
  }

  lemma RoundTrip16(x: u16)
    ensures Decode16(Encode16(x)) == x
  {
  }

  lemma RoundTrip32(x: u32)
    ensures Decode32(Encode32(x)) == x
  {
    var h := x / 0x100;
    assert x / 0x1_0000 == h / 0x100 && x / 0x100_0000 == h / 0x100 / 0x100;
  }

  /** The characters of a fixed-size name field up to its first NUL, as strcmp sees them. */
  function Text(field: seq<byte>): (s: CString)
    ensures |s| <= |field|
    ensures s == field[..|s|]
    ensures |s| == |field| || field[|s|] == 0
  {
    if |field| == 0 || field[0] == 0 then [] else [field[0]] + Text(field[1..])
  }

  /** A name copied into a zeroed field of `width` bytes. */
  function Padded(name: CString, width: nat): (field: seq<byte>)
    requires |name| <= width
    ensures |field| == width
  {
    name + Zeros(width - |name|)
  }

  lemma {:induction false} TextOfPadded(name: CString, width: nat)
    requires |name| <= width
    ensures Text(Padded(name, width)) == name
  {
    if |name| > 0 {
      assert Padded(name, width)[1..] == Padded(name[1..], width - 1);
      TextOfPadded(name[1..], width - 1);
    }
  }
}
