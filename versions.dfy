/**
 * Semantic versions and version specifications, as consumed by the upgrade walker.
 * Parsing is not modelled: a version is its three numeric parts plus its special
 * (prerelease) label.
 */
module Versions {

  import opened Wrappers

  datatype SemanticVersion = SemanticVersion(major: nat, minor: nat, patch: nat, specialVersion: string)

  /** A release version has an empty special version. */
  predicate IsReleaseVersion(v: SemanticVersion) {
    v.specialVersion == ""
  }

  predicate IsPrerelease(v: SemanticVersion) {
    !IsReleaseVersion(v)
  }

  /** Ordinal lexicographic order on strings ("alpha" < "beta", "a" < "ab"). */
  predicate StringLess(a: string, b: string)
    decreases |a|
  {
    |b| > 0 && (|a| == 0 || a[0] < b[0] || (a[0] == b[0] && StringLess(a[1..], b[1..])))
  }

  /** Order on the numeric parts. */
  predicate NumericLess(a: SemanticVersion, b: SemanticVersion) {
    a.major < b.major ||
    (a.major == b.major && (a.minor < b.minor || (a.minor == b.minor && a.patch < b.patch)))
  }

  predicate SameNumbers(a: SemanticVersion, b: SemanticVersion) {
    a.major == b.major && a.minor == b.minor && a.patch == b.patch
  }

  /**
   * Semantic version precedence: numeric parts first; with equal numbers a prerelease
   * precedes the release, and two prereleases compare by their labels.
   */
  predicate Less(a: SemanticVersion, b: SemanticVersion) {
    NumericLess(a, b) ||
    (SameNumbers(a, b) &&
      ((IsPrerelease(a) && IsReleaseVersion(b)) ||
       (IsPrerelease(a) && IsPrerelease(b) && StringLess(a.specialVersion, b.specialVersion))))
  }

  predicate LessOrEqual(a: SemanticVersion, b: SemanticVersion) {
    a == b || Less(a, b)
  }

  lemma {:induction false} StringLessIrreflexive(a: string)
    ensures !StringLess(a, a)
    decreases |a|
  {
    if |a| > 0 {
      StringLessIrreflexive(a[1..]);
    }
  }

  lemma {:induction false} StringLessTransitive(a: string, b: string, c: string)
    requires StringLess(a, b) && StringLess(b, c)
    ensures StringLess(a, c)
    decreases |a|
  {
    if |a| > 0 && a[0] == b[0] && b[0] == c[0] {
      StringLessTransitive(a[1..], b[1..], c[1..]);
    }
  }

  lemma {:induction false} StringLessTotal(a: string, b: string)
    ensures a == b || StringLess(a, b) || StringLess(b, a)
    decreases |a|
  {
    if |a| > 0 && |b| > 0 && a[0] == b[0] {
      StringLessTotal(a[1..], b[1..]);
      if a[1..] == b[1..] {
        assert a == [a[0]] + a[1..] && b == [b[0]] + b[1..];
      }
    }
  }

  /** `Less` is a strict order ... */
  lemma LessIrreflexive(a: SemanticVersion)
    ensures !Less(a, a)
  {
    StringLessIrreflexive(a.specialVersion);
  }

  lemma LessTransitive(a: SemanticVersion, b: SemanticVersion, c: SemanticVersion)
    requires Less(a, b) && Less(b, c)
    ensures Less(a, c)
  {
    if SameNumbers(a, b) && SameNumbers(b, c) && IsPrerelease(a) && IsPrerelease(b) && IsPrerelease(c) {
      StringLessTransitive(a.specialVersion, b.specialVersion, c.specialVersion);
    }
  }

  /** ... and a total one: any two distinct versions are comparable. */
  lemma LessTotal(a: SemanticVersion, b: SemanticVersion)
    ensures a == b || Less(a, b) || Less(b, a)
  {
    StringLessTotal(a.specialVersion, b.specialVersion);
  }

  /**
   * A version specification: optional lower and upper bound, each inclusive or exclusive.
   * An absent bound leaves that side unbounded.
   */
  datatype VersionSpec = VersionSpec(
    minVersion: Option<SemanticVersion>, isMinInclusive: bool,
    maxVersion: Option<SemanticVersion>, isMaxInclusive: bool)

  /** Whether `v` lies within the bounds of `spec`, honouring their inclusivity. */
  predicate Satisfies(spec: VersionSpec, v: SemanticVersion) {
    (spec.minVersion.Some? ==>
      (if spec.isMinInclusive then LessOrEqual(spec.minVersion.value, v) else Less(spec.minVersion.value, v))) &&
    (spec.maxVersion.Some? ==>
      (if spec.isMaxInclusive then LessOrEqual(v, spec.maxVersion.value) else Less(v, spec.maxVersion.value)))
  }

  /** The exact specification `[v]`, as built by `new VersionSpec(version)`. */
  function ExactSpec(v: SemanticVersion): (spec: VersionSpec)
    ensures spec.minVersion == spec.maxVersion == Some(v)
    ensures spec.isMinInclusive && spec.isMaxInclusive
  {
    VersionSpec(Some(v), true, Some(v), true)
  }

  /** An exact specification is satisfied by its version and by no other. */
  lemma ExactSpecSatisfiedOnlyByItsVersion(v: SemanticVersion, w: SemanticVersion)
    ensures Satisfies(ExactSpec(v), w) <==> w == v
  {
    if w != v && Satisfies(ExactSpec(v), w) {
      LessTransitive(v, w, v);
      LessIrreflexive(v);
    }
  }

  /** Decimal rendering of a natural number. */
  function NatToString(n: nat): (s: string)
    ensures |s| > 0
    ensures forall i :: 0 <= i < |s| ==> '0' <= s[i] <= '9'
    decreases n
  {
    var d := ['0' + (n % 10) as char];
    if n < 10 then d else NatToString(n / 10) + d
  }

  /** Normalised rendering "major.minor.patch" or "major.minor.patch-special". */
  function VersionToString(v: SemanticVersion): string {
    NatToString(v.major) + "." + NatToString(v.minor) + "." + NatToString(v.patch) +
    (if IsReleaseVersion(v) then "" else "-" + v.specialVersion)
  }
}
