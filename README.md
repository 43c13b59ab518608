# BitFunnel index layout core in Dafny

This project models three small value components of BitFunnel's index
layout layer and proves properties about them.

- **RowId** (`rowid.dfy`, module `RowIds`) identifies one row of the
  bit-sliced index by its rank, its index within the rank, and an ad-hoc
  flag. There are three constructors:
  - The checking constructor returns `Err(IndexOutOfRange)` or
    `Err(RankOutOfRange)` where the C++ code throws. The index is checked
    first.
  - The default constructor returns the zero sentinel.
  - The shifting constructor moves the index by an offset, wraps at 2^32
    and does no range check.

  `==` and `!=` compare all three fields. `<` orders by rank, then index,
  then the stored ad-hoc bit. `IsValid` is always true. The ordering is
  proved to be the order of a packed reference key (`OrderKey`). From that
  it is proved to be a strict total order consistent with `==`.
- **Version** (`version.dfy`, module `Versions`) is an immutable triple of
  C++ `int`s: major, middle and minor. Two versions are compatible exactly
  when their major and middle numbers agree, so compatibility is an
  equivalence. Incrementing minor keeps compatibility. Incrementing major
  or middle breaks it. Every increment yields a version that is newer in
  the model's lexicographic (major, middle, minor) order; Version.h itself
  defines no order.
  The increments are functions on values, so the receiver cannot change.
- **Block sizing** (`helpers.dfy`, modules `Rounding` and `BlockSizing`).
  The minimum block size is the dry-run result of
  `Shard::InitializeDescriptors`: no destination block, and a capacity of
  `Row::DocumentsInRank0Row(1, maxRankUsed)`. The reasonable block size
  rounds the minimum up to a multiple of `c_bytesPerCacheLine *
  c_bitsPerByte`, which is one cache line measured in bits. It is proved to
  be the least such multiple that is at least the minimum. `RoundUp` is
  defined by one division and proved equal to a reference definition that
  steps up one granule at a time.

The constants come from headers that are not part of this model. They are
module constants with no fixed value, so every proof holds for any value:
- `c_maxRankValue` is `MaxRank`.
- `c_maxRowIndexValue` is `MaxRowIndex`, which fits in 32 bits.
- `c_bytesPerCacheLine` is `BytesPerCacheLine`, which is positive.

Three operations of the index are called here but not defined:
`ITermTable::GetMaxRankUsed`, `Row::DocumentsInRank0Row` and
`Shard::InitializeDescriptors`. They are function-valued fields of a
`Collaborators` value that the block-sizing functions take as a parameter.

The model follows the C++ code on these points:
- The shifted index is truncated by `static_cast<uint32_t>`, that is,
  modulo 2^32.
- Version.h declares the constructor over any `int` and documents no
  check; the model accepts any `int`, negative ones included.
- `GetMinimumBlockSize` and `GetReasonableBlockSize` add no overflow check
  of their own.

## Model

| member | source | states |
|---|---|---|
| `RowIds.MakeRowId` | src/Index/src/RowId.cpp:39-57 | Succeeds iff index <= c_maxRowIndexValue and rank <= c_maxRankValue; an out-of-range index is reported before an out-of-range rank; on success GetRank/GetIndex/IsAdhoc give back exactly the arguments |
| `RowIds.DefaultRowId` | src/Index/src/RowId.cpp:66-72 | The default RowId has rank 0, index 0 and is not ad-hoc |
| `RowIds.Shifted` | src/Index/src/RowId.cpp:75-81 | Keeps rank and ad-hoc flag; index is (other.index + delta) mod 2^32, equal to the plain sum when that fits in 32 bits; no range check |
| `RowIds.GetRank` | src/Index/src/RowId.cpp:84-87 | Returns the stored rank; by MakeRowId's ensures, the rank the row was built with |
| `RowIds.GetIndex` | src/Index/src/RowId.cpp:90-93 | Returns the stored 32-bit index; by MakeRowId's ensures, the index the row was built with |
| `RowIds.IsAdhoc` | src/Index/src/RowId.cpp:96-99 | True exactly when the stored ad-hoc bit is set; by MakeRowId's ensures, the flag the row was built with |
| `RowIds.Equals` | src/Index/src/RowId.cpp:102-107 | Field-by-field comparison holds exactly when the two RowIds are the same value |
| `RowIds.NotEquals` | src/Index/src/RowId.cpp:110-113 | Holds exactly when the two RowIds differ |
| `RowIds.Less` | src/Index/src/RowId.cpp:116-129 | Rank-major: a smaller rank always sorts first, a row never sorts before one of lower rank, and at equal rank a smaller index sorts first |
| `RowIds.IsValid` | src/Index/src/RowId.cpp:132-145 | Every RowId is valid |
| `RowIds.LessIsOrderKeyOrder` | src/Index/src/RowId.cpp:116-129 | a < b iff the packed key (rank, index, ad-hoc bit) of a is smaller than that of b |
| `RowIds.OrderKeyInjective` | src/Index/src/RowId.cpp:102-107 | Two RowIds have the same packed key iff they are equal |
| `RowIds.LessIsStrictTotalOrder` | src/Index/src/RowId.cpp:116-129 | `<` is irreflexive, asymmetric and transitive, and any two RowIds are ordered or equal |
| `RowIds.LessTrichotomy` | src/Index/src/RowId.cpp:102-129 | Exactly one of a < b, a == b, b < a holds |
| `RowIds.NonAdhocBeforeAdhoc` | src/Index/src/RowId.cpp:116-129 | At equal rank and index, the non-ad-hoc row sorts before the ad-hoc one |
| `RowIds.DefaultIsLeast` | src/Index/src/RowId.cpp:66-72 | The default RowId equals the checked construction of (0, 0, not ad-hoc) and no RowId sorts before it |
| `RowIds.ShiftedComposes` | src/Index/src/RowId.cpp:75-81 | Shifting by d1 and then by d2 is shifting by d1 + d2, wrap-around included |
| `RowIds.ShiftedAgreesWithChecked` | src/Index/src/RowId.cpp:39-81 | When the moved index is within the checked bounds, shifting yields the same row as the checking constructor at the moved index |
| `RowIds.ShiftedIsLaterWithoutWrap` | src/Index/src/RowId.cpp:75-81 | A positive shift that does not wrap produces a row that sorts strictly later |
| `Versions.MakeVersion` | inc/BitFunnel/Utilities/Version.h:56-57 | VersionMajor, VersionMiddle and VersionMinor return exactly the values given to the build-time constructor |
| `Versions.VersionMajor` | inc/BitFunnel/Utilities/Version.h:72 | Returns the stored major number; by MakeVersion's ensures, the one given to the constructor |
| `Versions.VersionMiddle` | inc/BitFunnel/Utilities/Version.h:73 | Returns the stored middle number; by MakeVersion's ensures, the one given to the constructor |
| `Versions.VersionMinor` | inc/BitFunnel/Utilities/Version.h:74 | Returns the stored minor number; by MakeVersion's ensures, the one given to the constructor |
| `Versions.IsCompatibleWith` | inc/BitFunnel/Utilities/Version.h:68-69 | Compatible iff the version equals `other` with only its own minor number kept, i.e. major and middle match and minor is ignored |
| `Versions.IncrementMajor` | inc/BitFunnel/Utilities/Version.h:76-77 | Yields (major + 1, 0, 0), which is not compatible with the original |
| `Versions.IncrementMiddle` | inc/BitFunnel/Utilities/Version.h:78 | Yields (major, middle + 1, 0), which is not compatible with the original |
| `Versions.IncrementMinor` | inc/BitFunnel/Utilities/Version.h:79 | Yields (major, middle, minor + 1), a different version that is compatible with the original |
| `Versions.CompatibilityIsEquivalence` | inc/BitFunnel/Utilities/Version.h:68-69 | Compatibility is reflexive, symmetric and transitive |
| `Versions.CompatibilityIgnoresMinor` | inc/BitFunnel/Utilities/Version.h:68-69 | Replacing the minor number never changes compatibility with any version |
| `Versions.IncrementsAreNewer` | inc/BitFunnel/Utilities/Version.h:76-79 | Each increment is newer in the model's lexicographic (major, middle, minor) order, which Version.h does not define; a minor bump stays compatible with everything the original was compatible with, and a major or middle bump is compatible with none of them |
| `Rounding.RoundUp` | src/Index/src/Helpers.cpp:52 | The result is a multiple of the alignment, at least the value, and less than one alignment above it |
| `Rounding.LeastMultipleAtLeast` | src/Index/src/Helpers.cpp:52 | Reference definition counting up one granule at a time: a multiple of the alignment, at least the value, and less than one alignment above it |
| `Rounding.RoundUpIsLeastMultipleAtLeast` | src/Index/src/Helpers.cpp:52 | RoundUp's division formula gives the same result as the stepping reference definition for every value and alignment |
| `Rounding.RoundUpIsLeast` | src/Index/src/Helpers.cpp:52 | No multiple of the alignment that is at least the value lies below RoundUp's result |
| `Rounding.RoundUpOfMultiple` | src/Index/src/Helpers.cpp:52 | A value that is already a multiple is returned unchanged |
| `Rounding.RoundUpIdempotent` | src/Index/src/Helpers.cpp:52 | Rounding an already rounded value changes nothing |
| `Rounding.RoundUpMonotone` | src/Index/src/Helpers.cpp:52 | Rounding up preserves the order of its inputs |
| `BlockSizing.GetMinimumBlockSize` | src/Index/src/Helpers.cpp:32-42 | The minimum size is the dry-run (null destination) size from InitializeDescriptors for DocumentsInRank0Row(1, GetMaxRankUsed()) documents |
| `BlockSizing.GetReasonableBlockSize` | src/Index/src/Helpers.cpp:47-53 | A multiple of c_bytesPerCacheLine * c_bitsPerByte, at least the minimum size, less than one granule above it, and equal to it when the minimum is already a multiple |
| `BlockSizing.ReasonableBlockSizeIsLeastAligned` | src/Index/src/Helpers.cpp:47-53 | The reasonable size is the smallest cache-line-in-bits multiple that holds the minimum size |

## Left out

- `Version(std::istream&)`, `Version(IInputStream&)` and `Write` (inc/BitFunnel/Utilities/Version.h:59-66) are stream I/O. Version.h does not give their encoding, so no read/write round trip is modelled.
- `Shard::InitializeDescriptors`, `Row::DocumentsInRank0Row` and `ITermTable::GetMaxRankUsed` are not part of this model. They are parameters. Only the dry-run call that block sizing makes is modelled, not the initialisation of a real destination block.
- Rounding.h's body of `RoundUp` is not modelled; the model defines `RoundUp` by one division and proves it returns the smallest multiple of the alignment that is at least the value.
- GetReasonableBlockSize: the result is an unbounded `nat`. A `size_t` wrap-around inside `RoundUp`, for a minimum size within one granule of 2^64, is not modelled.
- Rank-capacity arithmetic (documents per row at a rank, rows needed for a capacity) is not in the modelled code and is not modelled.
- The bit-field layout of `RowId` (RowId.h) is not part of this model. The rank is an unbounded `nat`.
- Shifted: only the `uint32_t` truncation is modelled. Any further truncation of the index to a narrower bit-field in RowId.h is not.
- MakeRowId: the `m_unused` padding field and its "memory corruption" check are left out. That check cannot fire because the field has just been set to 0. The thrown `RecoverableError`s become `Err` results.
- Increment overflow: `Versions.IncrementMajor`, `IncrementMiddle` and `IncrementMinor` require that the incremented `int` is below `INT_MAX`. Signed overflow is undefined behaviour in C++.
- src/Index/src/Correlate.h (a diagnostic that writes reports to streams) and tools/BitFunnel/src/VerifyCommand.h (a command-line query replay task) declare interfaces only; they have no logic to model.
