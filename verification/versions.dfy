/** Versions and `incrementVersion` (src/lib/release.ts). A version is a
    `major.minor.patch` triple of natural numbers; the increment raises the
    minor number and resets the patch. */
module Versions {
  import opened Wrappers
  import opened Text

  datatype Version = Version(major: nat, minor: nat, patch: nat)

  /** `incrementVersion` on a well-formed version. */
  function IncrementVersion(v: Version): Version {
    Version(v.major, v.minor + 1, 0)
  }

  /** The version after `k` increments: the version of the `k`-th cycle
      counted from a base version. */
  function IncrementVersionTimes(v: Version, k: nat): Version {
    if k == 0 then v else IncrementVersion(IncrementVersionTimes(v, k - 1))
  }

  /** Version precedence: major first, then minor, then patch. */
  predicate Precedes(a: Version, b: Version) {
    || a.major < b.major
    || (a.major == b.major && a.minor < b.minor)
    || (a.major == b.major && a.minor == b.minor && a.patch < b.patch)
  }

  /** An increment moves to the next minor release: a later version with the
      same major number, and the earliest such version with a larger minor. */
  lemma IncrementIsNextMinor(v: Version, w: Version)
    ensures Precedes(v, IncrementVersion(v))
    ensures IncrementVersion(v).major == v.major
    ensures w.major == v.major && w.minor > v.minor ==> !Precedes(w, IncrementVersion(v))
  {
  }

  /** `k` increments add `k` to the minor number and, if there was any,
      reset the patch; the major number never changes. */
  lemma {:induction false} IncrementTimesClosedForm(v: Version, k: nat)
    ensures IncrementVersionTimes(v, k) == Version(v.major, v.minor + k, if k == 0 then v.patch else 0)
  {
    if k > 0 {
      IncrementTimesClosedForm(v, k - 1);
    }
  }

  /** Incrementing first and then `k` more times is `k + 1` increments. */
  lemma IncrementTimesShift(v: Version, k: nat)
    ensures IncrementVersionTimes(IncrementVersion(v), k) == IncrementVersionTimes(v, k + 1)
  {
    IncrementTimesClosedForm(IncrementVersion(v), k);
    IncrementTimesClosedForm(v, k + 1);
  }

  /** More increments give a strictly later version. */
  lemma IncrementTimesAscending(v: Version, j: nat, k: nat)
    requires j < k
    ensures Precedes(IncrementVersionTimes(v, j), IncrementVersionTimes(v, k))
  {
    IncrementTimesClosedForm(v, j);
    IncrementTimesClosedForm(v, k);
  }

  /** `major.minor.patch` in decimal. */
  function FormatVersion(v: Version): string {
    NatToString(v.major) + "." + NatToString(v.minor) + "." + NatToString(v.patch)
  }

  /** Reads `major.minor.patch`, each a non-empty run of decimal digits;
      any other text is rejected. */
  function ParseVersion(s: string): Option<Version> {
    var pieces := Split(s, '.');
    if |pieces| != 3 then None
    else
      match (ParseNat(pieces[0]), ParseNat(pieces[1]), ParseNat(pieces[2]))
      case (Some(a), Some(b), Some(c)) => Some(Version(a, b, c))
      case _ => None
  }

  /** `incrementVersion` on version text: read, increment, write back. */
  function IncrementVersionText(s: string): Option<string> {
    match ParseVersion(s)
    case Some(v) => Some(FormatVersion(IncrementVersion(v)))
    case None => None
  }

  /** A formatted version splits into its three numerals. */
  lemma SplitFormatted(v: Version)
    ensures Split(FormatVersion(v), '.') == [NatToString(v.major), NatToString(v.minor), NatToString(v.patch)]
  {
    var parts := [NatToString(v.major), NatToString(v.minor), NatToString(v.patch)];
    NumeralAvoids(v.major, '.');
    NumeralAvoids(v.minor, '.');
    NumeralAvoids(v.patch, '.');
    assert Join(parts[2..], '.') == NatToString(v.patch);
    assert Join(parts[1..], '.') == NatToString(v.minor) + "." + NatToString(v.patch);
    assert Join(parts, '.') == FormatVersion(v);
    SplitJoin(parts, '.');
  }

  /** Formatting a version and reading it back gives the same version. */
  lemma ParseFormatVersion(v: Version)
    ensures ParseVersion(FormatVersion(v)) == Some(v)
  {
    SplitFormatted(v);
    ParseNatToString(v.major);
    ParseNatToString(v.minor);
    ParseNatToString(v.patch);
  }

  /** Incrementing version text succeeds exactly on text that reads as a
      version, and its result reads as the incremented version. */
  lemma IncrementTextReadsBack(s: string)
    ensures IncrementVersionText(s).Some? <==> ParseVersion(s).Some?
    ensures ParseVersion(s).Some? ==>
      ParseVersion(IncrementVersionText(s).value) == Some(IncrementVersion(ParseVersion(s).value))
  {
    if ParseVersion(s).Some? {
      ParseFormatVersion(IncrementVersion(ParseVersion(s).value));
    }
  }

  /** On formatted text the increment writes `major.(minor + 1).0`. */
  lemma IncrementFormatted(v: Version)
    ensures IncrementVersionText(FormatVersion(v))
      == Some(NatToString(v.major) + "." + NatToString(v.minor + 1) + ".0")
  {
    ParseFormatVersion(v);
    assert NatToString(0) == "0";
    assert NatToString(v.major) + "." + NatToString(v.minor + 1) + "." + "0"
      == NatToString(v.major) + "." + NatToString(v.minor + 1) + ".0";
  }
}
