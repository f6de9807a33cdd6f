/** Octets, big-endian fields and ASCII case, shared by the packet models. */
module Bytes {
  type byte = x: int | 0 <= x < 256

  datatype Option<+T> = None | Some(value: T)

  /** `u8::to_ascii_lowercase`. */
  function Lower(b: byte): byte {
    if 65 <= b <= 90 then b + 32 else b
  }

  function LowerAll(s: seq<byte>): (r: seq<byte>)
    ensures |r| == |s| && forall i :: 0 <= i < |s| ==> r[i] == Lower(s[i])
  {
    seq(|s|, i requires 0 <= i < |s| => Lower(s[i]))
  }

  /** Equal up to ASCII case, byte by byte. */
  predicate SameUpToCase(a: seq<byte>, b: seq<byte>) {
    |a| == |b| && forall i :: 0 <= i < |a| ==> Lower(a[i]) == Lower(b[i])
  }

  function U16(hi: byte, lo: byte): (r: nat)
    ensures r < 0x1_0000
  {
    hi * 256 + lo
  }

  function U16At(s: seq<byte>, i: nat): (r: nat)
    requires i + 2 <= |s|
  {
    U16(s[i], s[i + 1])
  }

  function PutU16(v: nat): (r: seq<byte>)
    requires v < 0x1_0000
    ensures |r| == 2 && U16(r[0], r[1]) == v
  {
    [v / 256, v % 256]
  }

  lemma U16Injective(a: byte, b: byte, c: byte, d: byte)
    ensures U16(a, b) == U16(c, d) ==> a == c && b == d
  {
  }
}
