/** Bytes, little-endian words and the flat-buffer operations that the C code writes as memcpy and memset. */
module Bytes {

  type byte = x: int | 0 <= x < 256

  const TWO28: nat := 0x1000_0000
  const TWO32: nat := 0x1_0000_0000

  function Zeros(n: nat): (r: seq<byte>)
    ensures |r| == n
    ensures forall i | 0 <= i < n :: r[i] == 0
  {
    seq(n, _ => 0)
  }

  /** `s` with `w` copied over it from index `at`. */
  function Overlay(s: seq<byte>, at: nat, w: seq<byte>): (r: seq<byte>)
    requires at + |w| <= |s|
    ensures |r| == |s|
    ensures forall i | 0 <= i < |s| :: r[i] == if at <= i < at + |w| then w[i - at] else s[i]
  {
    s[..at] + w + s[at + |w|..]
  }

  /** The four bytes of a 32-bit word, least significant first. */
  function Le32(v: nat): (r: seq<byte>)
    requires v < TWO32
    ensures |r| == 4
  {
    [v % 256, v / 256 % 256, v / 65536 % 256, v / 16777216 % 256]
  }

  function FromLe32(s: seq<byte>): (v: nat)
    requires |s| == 4
    ensures v < TWO32
  {
    var b: seq<int> := s;
    b[0] + 256 * b[1] + 65536 * b[2] + 16777216 * b[3]
  }

  lemma Le32RoundTrip(v: nat)
    requires v < TWO32
    ensures FromLe32(Le32(v)) == v
  {
    assert v / 65536 == v / 256 / 256;
    assert v / 16777216 == v / 65536 / 256;
  }

  /** Two overlays that follow one another are one overlay of the joined bytes. */
  lemma OverlayJoin(s: seq<byte>, at: nat, v: seq<byte>, w: seq<byte>)
    requires at + |v| + |w| <= |s|
    ensures Overlay(Overlay(s, at, v), at + |v|, w) == Overlay(s, at, v + w)
  {
  }

  lemma SliceJoin(s: seq<byte>, a: nat, b: nat, c: nat)
    requires a <= b <= c <= |s|
    ensures s[a..b] + s[b..c] == s[a..c]
  {
  }
}
