/** Bit masks packed little-endian into bytes: bit i lives in byte i / 8 at position i % 8.
    Used by the packet patterns and by the HT MCS set. */
module BitMask {

  /** `1 << k` in a byte. */
  function Bit(k: nat): bv8
    requires k < 8
  {
    if k == 0 then 1 else if k == 1 then 2 else if k == 2 then 4 else if k == 3 then 8
    else if k == 4 then 16 else if k == 5 then 32 else if k == 6 then 64 else 128
  }

  predicate InByte(m: bv8, k: nat)
    requires k < 8
  {
    m & Bit(k) != 0
  }

  /** `mask[i / 8] & (1 << (i % 8))` */
  predicate Test(mask: seq<bv8>, i: nat)
    requires i < 8 * |mask|
  {
    InByte(mask[i / 8], i % 8)
  }

  function DivRoundUp(x: nat, y: nat): nat
    requires y > 0
  {
    (x + (y - 1)) / y
  }

  lemma OrBit(m: bv8, k: nat, j: nat)
    requires k < 8 && j < 8
    ensures InByte(m | Bit(k), j) <==> j == k || InByte(m, j)
  {
    var a := Bit(k);
    var b := Bit(j);
    assert (m | a) & b == (m & b) | (a & b);
    if j != k {
      assert a & b == 0;
    }
  }

  lemma OrBitAll(m: bv8, k: nat)
    requires k < 8
    ensures forall j: nat | j < 8 :: InByte(m | Bit(k), j) <==> j == k || InByte(m, j)
  {
    forall j: nat | j < 8
      ensures InByte(m | Bit(k), j) <==> j == k || InByte(m, j)
    {
      OrBit(m, k, j);
    }
  }

  lemma ZeroByte()
    ensures forall j: nat | j < 8 :: !InByte(0, j)
  {
    forall j: nat | j < 8
      ensures !InByte(0, j)
    {
      var b := Bit(j);
      assert (0 as bv8) & b == 0;
    }
  }

  /** A byte is determined by its eight bits. */
  lemma ByteExtensional(m: bv8, n: bv8)
    requires forall j: nat | j < 8 :: InByte(m, j) == InByte(n, j)
    ensures m == n
  {
    assert InByte(m, 0) == InByte(n, 0) && InByte(m, 1) == InByte(n, 1);
    assert InByte(m, 2) == InByte(n, 2) && InByte(m, 3) == InByte(n, 3);
    assert InByte(m, 4) == InByte(n, 4) && InByte(m, 5) == InByte(n, 5);
    assert InByte(m, 6) == InByte(n, 6) && InByte(m, 7) == InByte(n, 7);
  }

  /** A mask is determined by its bits. */
  lemma MaskExtensional(m: seq<bv8>, n: seq<bv8>)
    requires |m| == |n|
    requires forall i: nat | i < 8 * |m| :: Test(m, i) == Test(n, i)
    ensures m == n
  {
    forall q | 0 <= q < |m|
      ensures m[q] == n[q]
    {
      forall j: nat | j < 8
        ensures InByte(m[q], j) == InByte(n[q], j)
      {
        assert (8 * q + j) / 8 == q && (8 * q + j) % 8 == j;
        assert Test(m, 8 * q + j) == Test(n, 8 * q + j);
      }
      ByteExtensional(m[q], n[q]);
    }
  }

  /** The byte whose bit j is `bits[j]`, for the first `k` positions. */
  function PackByte(bits: seq<bool>, k: nat): (m: bv8)
    requires k <= 8
    ensures forall j: nat | j < 8 :: InByte(m, j) == (j < k && j < |bits| && bits[j])
  {
    if k == 0 then
      ZeroByte();
      0
    else
      var low := PackByte(bits, k - 1);
      if k - 1 < |bits| && bits[k - 1] then
        OrBitAll(low, k - 1);
        var m := low | Bit(k - 1);
        assert forall j: nat | j < 8 :: InByte(m, j) == (j == k - 1 || InByte(low, j));
        assert forall j: nat | j < 8 :: InByte(low, j) == (j < k - 1 && j < |bits| && bits[j]);
        m
      else low
  }

  /** The mask that holds exactly the given bits and zero padding. */
  function Pack(bits: seq<bool>): (mask: seq<bv8>)
    ensures |mask| == DivRoundUp(|bits|, 8)
    ensures forall i: nat | i < 8 * |mask| :: Test(mask, i) == (i < |bits| && bits[i])
  {
    seq(DivRoundUp(|bits|, 8), q requires 0 <= q < DivRoundUp(|bits|, 8) => PackByte(bits[8 * q..], 8))
  }
}
