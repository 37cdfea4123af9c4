/** Writing into byte vectors at positions, as the ICC profile writer does (lib/cms/jpegli_cms_internal.h). */
module IccBytes {
  import opened Arithmetic

  function Zeros(n: nat): (z: seq<Byte>)
    ensures |z| == n
  {
    seq(n, _ => 0)
  }

  /** The vector grows with zeros if it is too short; then the bytes at the position are replaced. */
  function WriteAt(icc: seq<Byte>, pos: nat, bytes: seq<Byte>): (r: seq<Byte>)
    ensures |r| == if |icc| < pos + |bytes| then pos + |bytes| else |icc|
    ensures r[pos..pos + |bytes|] == bytes
    ensures forall k :: 0 <= k < |icc| && (k < pos || pos + |bytes| <= k) ==> r[k] == icc[k]
  {
    var grown := if |icc| < pos + |bytes| then icc + Zeros(pos + |bytes| - |icc|) else icc;
    grown[..pos] + bytes + grown[pos + |bytes|..]
  }

  lemma WriteAtEnd(icc: seq<Byte>, bytes: seq<Byte>)
    ensures WriteAt(icc, |icc|, bytes) == icc + bytes
  {
  }

  /** Writing leaves a piece alone that it does not overlap. */
  lemma WriteKeeps(icc: seq<Byte>, pos: nat, bytes: seq<Byte>, a: nat, b: nat)
    requires a <= b <= |icc| && (b <= pos || pos + |bytes| <= a)
    ensures WriteAt(icc, pos, bytes)[a..b] == icc[a..b]
  {
  }

  /** Big-endian 32-bit numbers, as they are written: higher bits are lost. */
  function Uint32(value: nat): (b: seq<Byte>)
    ensures |b| == 4
  {
    [value / 0x100_0000 % 256, value / 0x1_0000 % 256, value / 0x100 % 256, value % 256]
  }

  function ReadUint32(b: seq<Byte>): (v: nat)
    requires |b| == 4
  {
    b[0] as int * 0x100_0000 + b[1] as int * 0x1_0000 + b[2] as int * 0x100 + b[3] as int
  }

  /** Numbers below 2^32 are read back. */
  lemma Uint32RoundTrip(value: nat)
    requires value < 0x1_0000_0000
    ensures ReadUint32(Uint32(value)) == value
  {
    var q1, q2, q3 := value / 0x100, value / 0x1_0000, value / 0x100_0000;
    assert q2 == q1 / 0x100 && q3 == q2 / 0x100;
    assert value == 0x100 * q1 + value % 0x100 && q1 == 0x100 * q2 + q1 % 0x100 && q2 == 0x100 * q3 + q2 % 0x100;
  }

  /** A piece of a longer vector. */
  function Piece(icc: seq<Byte>, pos: nat, n: nat): (p: seq<Byte>)
    requires pos + n <= |icc|
    ensures |p| == n
  {
    icc[pos..pos + n]
  }
}
