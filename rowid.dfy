/**
  Row identifiers of the bit-sliced index (src/Index/src/RowId.cpp).

  A RowId names one row by its rank, its index within that rank and
  whether it is an ad-hoc row.  The checking constructor refuses an
  out-of-range index or rank; the default constructor yields the zero
  sentinel; the shifting constructor moves the index by an offset with
  32-bit wrap-around and no check.  Equality compares all three fields
  and `<` orders rank-major, then by index, then non-ad-hoc before ad-hoc.
*/
module RowIds {

  /** Values of a C++ `uint32_t`. */
  type U32 = x: int | 0 <= x < 0x1_0000_0000

  const TwoTo32: nat := 0x1_0000_0000

  /** The stored ad-hoc flag: 1 for an ad-hoc row, 0 otherwise. */
  type Bit = x: int | 0 <= x < 2

  /** Largest rank the checking constructor accepts (`c_maxRankValue`). */
  const MaxRank: nat

  /** Largest row index the checking constructor accepts (`c_maxRowIndexValue`);
      it fits the 32-bit index field. */
  const MaxRowIndex: U32

  datatype RowId = RowId(rank: nat, index: U32, adhocBit: Bit)

  /** Why the checking constructor refused its arguments. */
  datatype RowIdError = IndexOutOfRange | RankOutOfRange

  datatype Result<T> = Ok(value: T) | Err(error: RowIdError)

  /** `GetRank`: the stored rank. */
  function GetRank(r: RowId): (rank: nat)
    ensures rank == r.rank
  {
    r.rank
  }

  /** `GetIndex`: the stored index, always below 2^32. */
  function GetIndex(r: RowId): (index: U32)
    ensures index == r.index && index < TwoTo32
  {
    r.index
  }

  /** `IsAdhoc`: whether the stored flag bit is set. */
  function IsAdhoc(r: RowId): (adhoc: bool)
    ensures adhoc <==> r.adhocBit != 0
  {
    r.adhocBit == 1
  }

  /** Both bounds of the checking constructor hold. */
  predicate InRange(rank: nat, index: nat)
  {
    index <= MaxRowIndex && rank <= MaxRank
  }

  /** The checking constructor `RowId(rank, index, isAdhoc)`.  The index is
      checked before the rank, so an argument pair out of range on both
      counts is reported as an index error. */
  function MakeRowId(rank: nat, index: nat, isAdhoc: bool): (r: Result<RowId>)
    ensures r.Ok? <==> InRange(rank, index)
    ensures index > MaxRowIndex ==> r == Err(IndexOutOfRange)
    ensures index <= MaxRowIndex && rank > MaxRank ==> r == Err(RankOutOfRange)
    ensures r.Ok? ==> GetRank(r.value) == rank && GetIndex(r.value) == index
                      && IsAdhoc(r.value) == isAdhoc
  {
    if index > MaxRowIndex then Err(IndexOutOfRange)
    else if rank > MaxRank then Err(RankOutOfRange)
    else Ok(RowId(rank, index, if isAdhoc then 1 else 0))
  }

  /** The default constructor: a placeholder that is not an allocated row. */
  function DefaultRowId(): (r: RowId)
    ensures GetRank(r) == 0 && GetIndex(r) == 0 && !IsAdhoc(r)
  {
    RowId(0, 0, 0)
  }

  /** The shifting constructor `RowId(other, delta)`: same rank and flag, index
      moved by `delta` and truncated to 32 bits, with no range check. */
  function Shifted(other: RowId, delta: nat): (r: RowId)
    ensures GetRank(r) == GetRank(other) && IsAdhoc(r) == IsAdhoc(other)
    ensures GetIndex(r) == (GetIndex(other) + delta) % TwoTo32
    ensures GetIndex(other) + delta < TwoTo32 ==> GetIndex(r) == GetIndex(other) + delta
  {
    RowId(other.rank, (other.index + delta) % TwoTo32, other.adhocBit)
  }

  /** `operator==`: field-by-field comparison, which is identity of the value. */
  function Equals(a: RowId, b: RowId): (eq: bool)
    ensures eq <==> a == b
  {
    a.index == GetIndex(b) && a.rank == GetRank(b) && a.adhocBit == b.adhocBit
  }

  /** `operator!=`. */
  function NotEquals(a: RowId, b: RowId): (ne: bool)
    ensures ne <==> a != b
  {
    !Equals(a, b)
  }

  /** `operator<`: rank first, then index, then the stored ad-hoc bit. */
  function Less(a: RowId, b: RowId): (lt: bool)
    ensures lt ==> GetRank(a) <= GetRank(b)
    ensures GetRank(a) < GetRank(b) ==> lt
    ensures GetRank(a) == GetRank(b) && GetIndex(a) < GetIndex(b) ==> lt
  {
    if a.rank != b.rank then a.rank < b.rank
    else if a.index != b.index then a.index < b.index
    else a.adhocBit < b.adhocBit
  }

  /** `IsValid`: a hook for padding rows that does not exist yet; every row is valid. */
  function IsValid(r: RowId): (valid: bool)
    ensures valid
  {
    true
  }

  /** Reference ordering: the three fields packed into one number, rank in
      the most significant position and the ad-hoc bit in the least. */
  function OrderKey(r: RowId): nat
  {
    r.rank * 0x2_0000_0000 + (r.index * 2 + r.adhocBit)
  }

  /** `<` is exactly the order of the packed key. */
  lemma {:induction false} LessIsOrderKeyOrder(a: RowId, b: RowId)
    ensures Less(a, b) <==> OrderKey(a) < OrderKey(b)
  {
    var la, lb := a.index * 2 + a.adhocBit, b.index * 2 + b.adhocBit;
    assert 0 <= la < 0x2_0000_0000 && 0 <= lb < 0x2_0000_0000;
  }

  /** Distinct rows have distinct packed keys. */
  lemma {:induction false} OrderKeyInjective(a: RowId, b: RowId)
    ensures OrderKey(a) == OrderKey(b) <==> a == b
  {
    LessIsOrderKeyOrder(a, b);
    LessIsOrderKeyOrder(b, a);
  }

  /** `<` is a strict total order that agrees with `==`. */
  lemma {:induction false} LessIsStrictTotalOrder()
    ensures forall a :: !Less(a, a)
    ensures forall a, b :: Less(a, b) ==> !Less(b, a)
    ensures forall a, b, c :: Less(a, b) && Less(b, c) ==> Less(a, c)
    ensures forall a, b :: Less(a, b) || Equals(a, b) || Less(b, a)
  {
    forall a, b | true
      ensures Less(a, b) <==> OrderKey(a) < OrderKey(b)
      ensures OrderKey(a) == OrderKey(b) <==> a == b
    {
      LessIsOrderKeyOrder(a, b);
      OrderKeyInjective(a, b);
    }
  }

  /** Exactly one of `a < b`, `a == b`, `b < a` holds. */
  lemma {:induction false} LessTrichotomy(a: RowId, b: RowId)
    ensures (Less(a, b) && !Equals(a, b) && !Less(b, a))
         || (!Less(a, b) && Equals(a, b) && !Less(b, a))
         || (!Less(a, b) && !Equals(a, b) && Less(b, a))
  {
    LessIsOrderKeyOrder(a, b);
    LessIsOrderKeyOrder(b, a);
    OrderKeyInjective(a, b);
  }

  /** At equal rank and index the non-ad-hoc row sorts first. */
  lemma NonAdhocBeforeAdhoc(rank: nat, index: nat)
    requires InRange(rank, index)
    ensures Less(MakeRowId(rank, index, false).value, MakeRowId(rank, index, true).value)
  {
  }

  /** The default sentinel is the least row and is what checked construction
      of rank 0, index 0, non-ad-hoc yields. */
  lemma DefaultIsLeast(r: RowId)
    ensures MakeRowId(0, 0, false) == Ok(DefaultRowId())
    ensures Less(DefaultRowId(), r) || Equals(DefaultRowId(), r)
  {
  }


  /** Reducing modulo 2^32 before adding does not change the sum modulo 2^32. */
  lemma ModAddMod(x: nat, d: nat)
    ensures ((x % TwoTo32) + d) % TwoTo32 == (x + d) % TwoTo32
  {
    var q := x / TwoTo32;
    assert x == q * TwoTo32 + x % TwoTo32;
  }

  /** Two shifts compose into one shift by the sum of the offsets, wrap-around included. */
  lemma {:induction false} ShiftedComposes(r: RowId, d1: nat, d2: nat)
    ensures Shifted(Shifted(r, d1), d2) == Shifted(r, d1 + d2)
  {
    ModAddMod(r.index + d1, d2);
  }

  /** While the shifted index stays within the checked bounds, shifting gives
      the same row as checked construction at the moved index. */
  lemma ShiftedAgreesWithChecked(r: RowId, delta: nat)
    requires InRange(GetRank(r), GetIndex(r) + delta)
    ensures MakeRowId(GetRank(r), GetIndex(r) + delta, IsAdhoc(r)) == Ok(Shifted(r, delta))
  {
  }

  /** A shift that does not wrap moves the row strictly later in the order. */
  lemma ShiftedIsLaterWithoutWrap(r: RowId, delta: nat)
    requires 0 < delta && GetIndex(r) + delta < TwoTo32
    ensures Less(r, Shifted(r, delta))
  {
  }
}
