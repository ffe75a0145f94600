/**
 * Chunk coordinate arithmetic of the region provider: `chunk >> 5` gives the
 * region, `chunk & 0x1f` the slot inside it, and `region << 5` the first chunk
 * of a region.  The shift and the mask are modelled bit by bit on the
 * two's-complement representation, so that their floor semantics for negative
 * coordinates is proved rather than assumed.
 */
module Coords {

  /** 2 to the power n. */
  function Pow2(n: nat): (p: nat)
    ensures p >= 1
  {
    if n == 0 then 1 else 2 * Pow2(n - 1)
  }

  /**
   * Arithmetic right shift `x >> n`: every step drops the lowest bit of the
   * two's-complement representation and keeps the sign.  Dafny's `/` by a
   * positive divisor rounds toward negative infinity, which is what dropping
   * one bit does.
   */
  function ShiftRight(x: int, n: nat): int
    decreases n
  {
    if n == 0 then x else ShiftRight(x / 2, n - 1)
  }

  /**
   * `x & (2^n - 1)`: the lowest n bits of x in two's complement, read as an
   * unsigned number.  `x % 2` is the lowest bit (never negative in Dafny) and
   * `x / 2` is `x >> 1`.
   */
  function LowBits(x: int, n: nat): int
    decreases n
  {
    if n == 0 then 0 else x % 2 + 2 * LowBits(x / 2, n - 1)
  }

  /** Left shift `x << n`, for values whose result fits the integer width. */
  function ShiftLeft(x: int, n: nat): int
  {
    x * Pow2(n)
  }

  /** The shifted-out bits and the kept bits reassemble the number. */
  lemma {:induction false} ShiftMaskSplit(x: int, n: nat)
    ensures 0 <= LowBits(x, n) < Pow2(n)
    ensures ShiftRight(x, n) * Pow2(n) + LowBits(x, n) == x
    decreases n
  {
    if n > 0 {
      ShiftMaskSplit(x / 2, n - 1);
      var q, l, p := ShiftRight(x / 2, n - 1), LowBits(x / 2, n - 1), Pow2(n - 1);
      assert q * p + l == x / 2;
      assert q * (2 * p) == 2 * (q * p);
      assert LowBits(x, n) == x % 2 + 2 * l;
      assert x == 2 * (x / 2) + x % 2;
    }
  }

  lemma Pow2Five()
    ensures Pow2(5) == 32
  {
    assert Pow2(1) == 2;
    assert Pow2(3) == 8;
  }

  /** `chunk >> 5`: the region holding a chunk; the region spans 32 chunks from `r * 32`. */
  function RegionIndex(chunk: int): (r: int)
    ensures r * 32 <= chunk < r * 32 + 32
  {
    ShiftMaskSplit(chunk, 5);
    Pow2Five();
    ShiftRight(chunk, 5)
  }

  /** `chunk & 0x1f`: the chunk's slot inside its region. */
  function LocalIndex(chunk: int): (l: int)
    ensures 0 <= l < 32
    ensures RegionIndex(chunk) * 32 + l == chunk
  {
    ShiftMaskSplit(chunk, 5);
    Pow2Five();
    LowBits(chunk, 5)
  }

  /**
   * `getRegionIndex($chunkX, $chunkZ, &$regionX, &$regionZ)`: both coordinates
   * shifted right by five, returned as a pair in place of the two
   * by-reference out-parameters.
   */
  function GetRegionIndex(chunkX: int, chunkZ: int): (r: (int, int))
    ensures r.0 * 32 <= chunkX < r.0 * 32 + 32
    ensures r.1 * 32 <= chunkZ < r.1 * 32 + 32
  {
    (RegionIndex(chunkX), RegionIndex(chunkZ))
  }

  /** A region and an in-range slot that rebuild a chunk are that chunk's region and slot. */
  lemma RegionSlotUnique(chunk: int, region: int, slot: int)
    requires 0 <= slot < 32
    requires region * 32 + slot == chunk
    ensures region == RegionIndex(chunk)
    ensures slot == LocalIndex(chunk)
  {
  }

  /** The shift is floor division by 32 and the mask is the non-negative remainder. */
  lemma RegionIndexIsFloor(chunk: int)
    ensures RegionIndex(chunk) == chunk / 32
    ensures LocalIndex(chunk) == chunk % 32
  {
    RegionSlotUnique(chunk, chunk / 32, chunk % 32);
  }

  /** Negative coordinates land in the region below zero, not in region 0. */
  lemma NegativeExamples()
    ensures RegionIndex(-33) == -2 && LocalIndex(-33) == 31
    ensures RegionIndex(-1) == -1 && LocalIndex(-1) == 31
    ensures RegionIndex(-32) == -1 && LocalIndex(-32) == 0
    ensures RegionIndex(31) == 0 && RegionIndex(32) == 1
  {
    RegionSlotUnique(-33, -2, 31);
    RegionSlotUnique(-1, -1, 31);
    RegionSlotUnique(-32, -1, 0);
    RegionSlotUnique(31, 0, 31);
    RegionSlotUnique(32, 1, 0);
  }

  /**
   * The 32 chunks `region << 5 .. (region << 5) + 31` that getAllChunks walks
   * for one region are exactly the chunks whose index is that region.
   */
  lemma RegionBlock(region: int, chunk: int)
    ensures RegionIndex(chunk) == region <==>
              ShiftLeft(region, 5) <= chunk < ShiftLeft(region, 5) + 32
  {
    Pow2Five();
    if ShiftLeft(region, 5) <= chunk < ShiftLeft(region, 5) + 32 {
      RegionSlotUnique(chunk, region, chunk - region * 32);
    }
  }
}
