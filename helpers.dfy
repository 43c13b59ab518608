/**
  Rounding a size up to a multiple of an alignment (the contract of
  `RoundUp` from Rounding.h).
*/
module Rounding {

  type Pos = x: int | x > 0 witness 1

  /** The smallest multiple of `alignment` that is at least `value`,
      computed by one division. */
  function RoundUp(value: nat, alignment: Pos): (r: nat)
    ensures r % alignment == 0
    ensures value <= r < value + alignment
  {
    var q := (value + alignment - 1) / alignment;
    DivBounds(value + alignment - 1, alignment);
    DivModUnique(q * alignment, alignment, q, 0);
    q * alignment
  }

  /** Reference definition of the same value: step up one alignment at a
      time from zero until `value` is covered. */
  function LeastMultipleAtLeast(value: int, alignment: Pos): (r: nat)
    requires value + alignment > 0
    ensures r % alignment == 0
    ensures value <= r < value + alignment
    decreases value
  {
    if value <= 0 then 0
    else
      var below := LeastMultipleAtLeast(value - alignment, alignment);
      ModAddDivisor(below, alignment);
      below + alignment
  }

  /** Euclidean division brackets its dividend. */
  lemma DivBounds(x: nat, d: Pos)
    ensures (x / d) * d <= x < (x / d) * d + d
  {
    assert x == (x / d) * d + x % d;
  }

  lemma MulAtLeast(k: nat, d: Pos)
    requires k >= 1
    ensures k * d >= d
  {
  }

  /** Quotient and remainder are the only ones with `x == q * a + r` and `0 <= r < a`. */
  lemma {:induction false} DivModUnique(x: nat, a: Pos, q: nat, r: nat)
    requires x == q * a + r && r < a
    ensures x / a == q && x % a == r
  {
    var q2, r2 := x / a, x % a;
    assert x == q2 * a + r2 && 0 <= r2 < a;
    if q2 < q {
      assert (q - q2) * a == r2 - r;
      MulAtLeast(q - q2, a);
    } else if q < q2 {
      assert (q2 - q) * a == r - r2;
      MulAtLeast(q2 - q, a);
    }
  }

  /** Adding the divisor does not change the remainder. */
  lemma {:induction false} ModAddDivisor(x: nat, a: Pos)
    ensures (x + a) % a == x % a
  {
    var q, r := x / a, x % a;
    assert x == q * a + r;
    assert x + a == (q + 1) * a + r;
    DivModUnique(x + a, a, q + 1, r);
  }

  /** A window of `alignment` consecutive numbers holds at most one multiple. */
  lemma {:induction false} OneMultipleInWindow(x: nat, y: nat, value: int, alignment: Pos)
    requires x % alignment == 0 && y % alignment == 0
    requires value <= x < value + alignment && value <= y < value + alignment
    ensures x == y
  {
    var qx, qy := x / alignment, y / alignment;
    assert x == qx * alignment by { assert x == qx * alignment + x % alignment; }
    assert y == qy * alignment by { assert y == qy * alignment + y % alignment; }
    if qx < qy {
      assert y - x == (qy - qx) * alignment;
      MulAtLeast(qy - qx, alignment);
    } else if qy < qx {
      assert x - y == (qx - qy) * alignment;
      MulAtLeast(qx - qy, alignment);
    }
  }

  /** No multiple of `alignment` at or above `value` lies below `RoundUp(value, alignment)`. */
  lemma {:induction false} RoundUpIsLeast(value: nat, alignment: Pos, m: nat)
    requires m % alignment == 0 && value <= m
    ensures RoundUp(value, alignment) <= m
  {
    if m < value + alignment {
      OneMultipleInWindow(RoundUp(value, alignment), m, value, alignment);
    }
  }

  /** The division formula and the stepping definition agree. */
  lemma {:induction false} RoundUpIsLeastMultipleAtLeast(value: nat, alignment: Pos)
    ensures RoundUp(value, alignment) == LeastMultipleAtLeast(value, alignment)
  {
    OneMultipleInWindow(RoundUp(value, alignment), LeastMultipleAtLeast(value, alignment),
                        value, alignment);
  }

  /** A value that is already a multiple is left unchanged. */
  lemma {:induction false} RoundUpOfMultiple(value: nat, alignment: Pos)
    requires value % alignment == 0
    ensures RoundUp(value, alignment) == value
  {
    RoundUpIsLeast(value, alignment, value);
  }

  /** Rounding twice is rounding once. */
  lemma {:induction false} RoundUpIdempotent(value: nat, alignment: Pos)
    ensures RoundUp(RoundUp(value, alignment), alignment) == RoundUp(value, alignment)
  {
    RoundUpOfMultiple(RoundUp(value, alignment), alignment);
  }

  /** Rounding up preserves order. */
  lemma {:induction false} RoundUpMonotone(a: nat, b: nat, alignment: Pos)
    requires a <= b
    ensures RoundUp(a, alignment) <= RoundUp(b, alignment)
  {
    RoundUpIsLeast(a, alignment, RoundUp(b, alignment));
  }
}

/**
  Block sizing (src/Index/src/Helpers.cpp).

  A shard's block holds its rows and per-document data.  The minimum size
  is what `Shard::InitializeDescriptors` reports in its sizing-only mode
  (no destination) for the capacity `DocumentsInRank0Row(1, maxRankUsed)`
  returns; the reasonable size rounds that up to a whole number of
  cache lines measured in bits.
*/
module BlockSizing {

  import opened Rounding

  /** Values of a 64-bit `size_t`. */
  type SizeT = x: int | 0 <= x < 0x1_0000_0000_0000_0000

  /** `c_bitsPerByte`. */
  const BitsPerByte: nat := 8

  /** `c_bytesPerCacheLine`, a platform constant. */
  const BytesPerCacheLine: Pos

  /** The rounding granule of a reasonable block: one cache line, in bits. */
  const CacheLineBits: Pos := BytesPerCacheLine * BitsPerByte

  /** The destination block given to `InitializeDescriptors`; `NoBlock` is
      the null pointer that asks for the size only. */
  datatype Destination = NoBlock | Block(address: nat)

  /** The operations of the index that block sizing calls but that are not
      part of this model, over an opaque document-data schema and term table. */
  datatype Collaborators<!Schema, !TermTable> = Collaborators(
    getMaxRankUsed: TermTable -> nat,
    documentsInRank0Row: (nat, nat) -> nat,
    initializeDescriptors: (Destination, nat, Schema, TermTable) -> SizeT)

  /** The document capacity asked of the block: the capacity
      `DocumentsInRank0Row(1, maxRankUsed)` returns. */
  function BlockCapacity<Schema, TermTable>(env: Collaborators<Schema, TermTable>, termTable: TermTable): nat
  {
    env.documentsInRank0Row(1, env.getMaxRankUsed(termTable))
  }

  /** `GetMinimumBlockSize`: the size `InitializeDescriptors` reports in a dry
      run, with no destination block to write. */
  function GetMinimumBlockSize<Schema, TermTable>(
    env: Collaborators<Schema, TermTable>, schema: Schema, termTable: TermTable): (size: SizeT)
    ensures size == env.initializeDescriptors(NoBlock, BlockCapacity(env, termTable), schema, termTable)
  {
    var capacity := env.documentsInRank0Row(1, env.getMaxRankUsed(termTable));
    env.initializeDescriptors(NoBlock, capacity, schema, termTable)
  }

  /** `GetReasonableBlockSize`: the minimum size rounded up to whole cache
      lines in bits; never smaller than the minimum, less than one granule
      larger, and unchanged when the minimum is already aligned. */
  function GetReasonableBlockSize<Schema, TermTable>(
    env: Collaborators<Schema, TermTable>, schema: Schema, termTable: TermTable): (size: nat)
    ensures size % CacheLineBits == 0
    ensures GetMinimumBlockSize(env, schema, termTable) <= size
            < GetMinimumBlockSize(env, schema, termTable) + CacheLineBits
    ensures GetMinimumBlockSize(env, schema, termTable) % CacheLineBits == 0 ==>
              size == GetMinimumBlockSize(env, schema, termTable)
  {
    var minimumFunctionalSize := GetMinimumBlockSize(env, schema, termTable);
    RoundUpOfMultipleWhenAligned(minimumFunctionalSize);
    RoundUp(minimumFunctionalSize, CacheLineBits)
  }

  lemma RoundUpOfMultipleWhenAligned(value: nat)
    ensures value % CacheLineBits == 0 ==> RoundUp(value, CacheLineBits) == value
  {
    if value % CacheLineBits == 0 {
      RoundUpOfMultiple(value, CacheLineBits);
    }
  }

  /** The reasonable size is the smallest cache-line-aligned size that holds
      the minimum. */
  lemma {:induction false} ReasonableBlockSizeIsLeastAligned<Schema, TermTable>(
    env: Collaborators<Schema, TermTable>, schema: Schema, termTable: TermTable, m: nat)
    requires m % CacheLineBits == 0 && GetMinimumBlockSize(env, schema, termTable) <= m
    ensures GetReasonableBlockSize(env, schema, termTable) <= m
  {
    RoundUpIsLeast(GetMinimumBlockSize(env, schema, termTable), CacheLineBits, m);
  }
}
