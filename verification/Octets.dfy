/** Byte sequences and flag words, as the decoders and the drivers share them. */
module Octets {
  import opened CText

  /** A 16-bit number in little-endian order. */
  function U16(b: seq<Byte>, at: nat := 0): (n: nat)
    requires at + 2 <= |b|
    ensures n < 0x10000
  {
    b[at] as int + 256 * b[at + 1] as int
  }

  function Split16(n: nat): (b: seq<Byte>)
    requires n < 0x10000
    ensures |b| == 2 && U16(b) == n
  {
    [n % 256, n / 256]
  }

  lemma Split16U16(b: seq<Byte>)
    requires |b| >= 2
    ensures Split16(U16(b)) == b[..2]
  {
  }

  function Flatten(parts: seq<seq<Byte>>): seq<Byte> {
    if parts == [] then [] else parts[0] + Flatten(parts[1..])
  }

  lemma Cut(b: seq<Byte>, at: nat, h: nat, n: nat)
    requires h <= n && at + n <= |b|
    ensures b[at..][..h] == b[at..at + h] && b[at..][h..n] == b[at + h..at + n] && b[at..][n..] == b[at + n..]
  {
  }

  /** `flags & bit`, for a bit of a flag word. */
  predicate Has(flags: nat, bit: nat)
    requires bit > 0
  {
    flags / bit % 2 == 1
  }
}
