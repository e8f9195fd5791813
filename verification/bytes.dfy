/** Byte buffers: little-endian field reads and in-place overwrites. */
module Bytes {
  import opened EfiTypes

  function Pow256(n: nat): (r: nat)
    ensures r > 0
  {
    if n == 0 then 1 else 0x100 * Pow256(n - 1)
  }

  /**
    The unsigned little-endian value of `s`; always representable in
    |s| bytes.
   */
  function LittleEndian(s: seq<uint8>): (r: nat)
    ensures r < Pow256(|s|)
    ensures |s| > 0 ==> r % 0x100 == s[0]
  {
    if |s| == 0 then 0 else s[0] + 0x100 * LittleEndian(s[1..])
  }

  /** A UINT64 field stored little-endian at `off`, as x86-64 reads it. */
  function ReadUInt64(b: seq<uint8>, off: nat): (r: uint64)
    requires off + 8 <= |b|
  {
    assert Pow256(8) == UINT64_LIMIT;
    LittleEndian(b[off..off + 8])
  }

  /** `a` and `b` agree everywhere except possibly on [lo, hi). */
  ghost predicate UnchangedOutside(a: seq<uint8>, b: seq<uint8>, lo: int, hi: int) {
    |a| == |b| && forall i | 0 <= i < |a| && !(lo <= i < hi) :: a[i] == b[i]
  }

  /** CopyMem of `data` to `b[off..]`: those bytes become `data`, no other byte moves. */
  function Overwrite(b: seq<uint8>, off: nat, data: seq<uint8>): (r: seq<uint8>)
    requires off + |data| <= |b|
    ensures |r| == |b|
    ensures r[off..off + |data|] == data
    ensures UnchangedOutside(b, r, off, off + |data|)
  {
    b[..off] + data + b[off + |data|..]
  }

  /** Writing the same bytes at the same place a second time changes nothing. */
  lemma OverwriteIdempotent(b: seq<uint8>, off: nat, data: seq<uint8>)
    requires off + |data| <= |b|
    ensures Overwrite(Overwrite(b, off, data), off, data) == Overwrite(b, off, data)
  {
  }
}
