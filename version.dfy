/**
  Version tags (inc/BitFunnel/Utilities/Version.h).

  A Version is an immutable major.middle.minor triple of C++ `int`s.  A
  major mismatch means the header format changed, a middle mismatch that
  the data layout changed, a minor mismatch only that bug fixes may have
  changed contents; so two versions are compatible exactly when their
  major and middle numbers agree.  The increment operations are `const`
  and return new values.
*/
module Versions {

  /** Values of a C++ `int` (32-bit, two's complement). */
  type Int32 = x: int | -0x8000_0000 <= x < 0x8000_0000

  const MaxInt32: Int32 := 0x7fff_ffff

  datatype Version = Version(major: Int32, middle: Int32, minor: Int32)

  /** The build-time constructor `Version(major, middle, minor)`. */
  function MakeVersion(major: Int32, middle: Int32, minor: Int32): (v: Version)
    ensures VersionMajor(v) == major && VersionMiddle(v) == middle && VersionMinor(v) == minor
  {
    Version(major, middle, minor)
  }

  /** `VersionMajor`: the stored major number. */
  function VersionMajor(v: Version): (major: Int32)
    ensures major == v.major
  {
    v.major
  }

  /** `VersionMiddle`: the stored middle number. */
  function VersionMiddle(v: Version): (middle: Int32)
    ensures middle == v.middle
  {
    v.middle
  }

  /** `VersionMinor`: the stored minor number. */
  function VersionMinor(v: Version): (minor: Int32)
    ensures minor == v.minor
  {
    v.minor
  }

  /** `IsCompatibleWith`: the two versions may differ only in their minor number. */
  function IsCompatibleWith(v: Version, other: Version): (compatible: bool)
    ensures compatible <==> v == MakeVersion(VersionMajor(other), VersionMiddle(other), VersionMinor(v))
  {
    v.major == other.major && v.middle == other.middle
  }

  /** `IncrementMajor`: next major number, middle and minor reset to zero.
      Overflowing the `int` is undefined behaviour, so the caller must avoid it. */
  function IncrementMajor(v: Version): (r: Version)
    requires VersionMajor(v) < MaxInt32
    ensures VersionMajor(r) == VersionMajor(v) + 1 && VersionMiddle(r) == 0 && VersionMinor(r) == 0
    ensures !IsCompatibleWith(r, v)
  {
    Version(v.major + 1, 0, 0)
  }

  /** `IncrementMiddle`: same major, next middle number, minor reset to zero. */
  function IncrementMiddle(v: Version): (r: Version)
    requires VersionMiddle(v) < MaxInt32
    ensures VersionMajor(r) == VersionMajor(v) && VersionMiddle(r) == VersionMiddle(v) + 1
            && VersionMinor(r) == 0
    ensures !IsCompatibleWith(r, v)
  {
    Version(v.major, v.middle + 1, 0)
  }

  /** `IncrementMinor`: only the minor number changes. */
  function IncrementMinor(v: Version): (r: Version)
    requires VersionMinor(v) < MaxInt32
    ensures VersionMajor(r) == VersionMajor(v) && VersionMiddle(r) == VersionMiddle(v)
            && VersionMinor(r) == VersionMinor(v) + 1
    ensures IsCompatibleWith(r, v) && r != v
  {
    Version(v.major, v.middle, v.minor + 1)
  }

  /** Compatibility is an equivalence relation: it is equality of (major, middle). */
  lemma CompatibilityIsEquivalence()
    ensures forall v :: IsCompatibleWith(v, v)
    ensures forall v, w :: IsCompatibleWith(v, w) <==> IsCompatibleWith(w, v)
    ensures forall u, v, w :: IsCompatibleWith(u, v) && IsCompatibleWith(v, w) ==> IsCompatibleWith(u, w)
  {
  }

  /** The minor number never affects compatibility. */
  lemma CompatibilityIgnoresMinor(v: Version, other: Version, minor: Int32)
    ensures IsCompatibleWith(MakeVersion(VersionMajor(v), VersionMiddle(v), minor), other)
        <==> IsCompatibleWith(v, other)
  {
  }

  /** An order on versions, lexicographic on (major, middle, minor); Version.h
      defines none, so this is the model's own yardstick for "newer". */
  predicate Newer(a: Version, b: Version)
  {
    a.major > b.major
    || (a.major == b.major && a.middle > b.middle)
    || (a.major == b.major && a.middle == b.middle && a.minor > b.minor)
  }

  /** Every increment yields a strictly newer version; bumping minor keeps
      compatibility with everything the original was compatible with, while
      bumping major or middle breaks compatibility with all of them. */
  lemma {:induction false} IncrementsAreNewer(v: Version, other: Version)
    requires IsCompatibleWith(v, other)
    ensures VersionMajor(v) < MaxInt32 ==>
              Newer(IncrementMajor(v), v) && !IsCompatibleWith(IncrementMajor(v), other)
    ensures VersionMiddle(v) < MaxInt32 ==>
              Newer(IncrementMiddle(v), v) && !IsCompatibleWith(IncrementMiddle(v), other)
    ensures VersionMinor(v) < MaxInt32 ==>
              Newer(IncrementMinor(v), v) && IsCompatibleWith(IncrementMinor(v), other)
  {
  }
}
