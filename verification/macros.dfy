/** Build-wide constants and the version arithmetic of Global/Macros.h. */
module Macros {

  const VersionMajor: int := 0
  const VersionMinor: int := 9
  const VersionRevision: int := 5

  /** NATRON_MAX_RECENT_FILES: length of the recent-files menu. */
  const MaxRecentFiles: nat := 5

  /** The plugin group names the toolbar knows about. */
  const GroupImage := "Image"
  const GroupColor := "Color"
  const GroupFilter := "Filter"
  const GroupTransform := "Transform"
  const GroupTime := "Time"
  const GroupPaint := "Draw"
  const GroupKeyer := "Keyer"
  const GroupChannel := "Channel"
  const GroupMerge := "Merge"
  const GroupMultiview := "Views"
  const GroupDeep := "Deep"
  const GroupDefault := "Other"

  /** A version as the triple it is written as. */
  datatype Version = Version(major: int, minor: int, revision: int)

  /** Minor and revision fit in the two decimal digits the encoding gives them. */
  predicate WellFormed(v: Version) {
    0 <= v.minor < 100 && 0 <= v.revision < 100
  }

  /** Lexicographic order on (major, minor, revision). */
  predicate Below(a: Version, b: Version) {
    a.major < b.major
    || (a.major == b.major && a.minor < b.minor)
    || (a.major == b.major && a.minor == b.minor && a.revision < b.revision)
  }

  /** NATRON_VERSION_ENCODE. */
  function Encode(v: Version): int {
    v.major * 10000 + v.minor * 100 + v.revision
  }

  /** NATRON_VERSION_ENCODED, the encoding of this release. */
  function EncodedVersion(): (r: int)
    ensures r == 905
    ensures r == Encode(Version(VersionMajor, VersionMinor, VersionRevision))
  {
    Encode(Version(VersionMajor, VersionMinor, VersionRevision))
  }

  /** Reads the triple back out of a non-negative encoding. */
  function Decode(e: int): (r: Version)
    requires e >= 0
    ensures WellFormed(r) && r.major >= 0
  {
    Version(e / 10000, (e % 10000) / 100, e % 100)
  }

  /** Minor and revision together occupy the four low decimal digits. */
  lemma LowDigits(v: Version)
    requires WellFormed(v)
    ensures 0 <= v.minor * 100 + v.revision < 10000
  {
  }

  /** The two decimal fields below 10000 separate under division. */
  lemma SplitAt10000(hi: int, lo: int)
    requires 0 <= lo < 10000
    ensures (hi * 10000 + lo) / 10000 == hi && (hi * 10000 + lo) % 10000 == lo
  {
  }

  lemma SplitAt100(hi: int, lo: int)
    requires 0 <= lo < 100
    ensures (hi * 100 + lo) / 100 == hi && (hi * 100 + lo) % 100 == lo
  {
  }

  /** Decoding an encoded well-formed version gives it back. */
  lemma DecodeEncode(v: Version)
    requires WellFormed(v) && v.major >= 0
    ensures Encode(v) >= 0 && Decode(Encode(v)) == v
  {
    var low := v.minor * 100 + v.revision;
    LowDigits(v);
    var e := Encode(v);
    assert e == v.major * 10000 + low;
    SplitAt10000(v.major, low);
    SplitAt100(v.minor, v.revision);
    assert e == (v.major * 100 + v.minor) * 100 + v.revision;
    SplitAt100(v.major * 100 + v.minor, v.revision);
    assert e / 10000 == v.major && (e % 10000) / 100 == v.minor && e % 100 == v.revision;
  }

  /** Comparing encodings compares versions, which is what every
      `>= NATRON_VERSION_ENCODE(...)` test relies on; equal encodings
      therefore mean equal versions. */
  lemma {:induction false} EncodeOrder(a: Version, b: Version)
    requires WellFormed(a) && WellFormed(b)
    ensures Encode(a) < Encode(b) <==> Below(a, b)
    ensures Encode(a) == Encode(b) <==> a == b
  {
    LowDigits(a);
    LowDigits(b);
    var la := a.minor * 100 + a.revision;
    var lb := b.minor * 100 + b.revision;
    if a.major < b.major {
      assert a.major * 10000 + 10000 <= b.major * 10000;
    } else if a.major > b.major {
      assert b.major * 10000 + 10000 <= a.major * 10000;
    } else if a.minor < b.minor {
      assert a.minor * 100 + 100 <= b.minor * 100;
    } else if a.minor > b.minor {
      assert b.minor * 100 + 100 <= a.minor * 100;
    }
  }

  /** The compiler building the program: GCC with its version, or another one. */
  datatype Compiler = Gcc(gccMajor: int, gccMinor: int, gccPatch: int) | OtherCompiler

  /** GCC_VERSION_AT_LEAST; a compiler other than GCC never qualifies. */
  function GccVersionAtLeast(c: Compiler, major: int, minor: int, patch: int): (r: bool)
    ensures c.OtherCompiler? ==> !r
    ensures c.Gcc? && WellFormed(Version(c.gccMajor, c.gccMinor, c.gccPatch)) && WellFormed(Version(major, minor, patch))
            ==> (r <==> !Below(Version(c.gccMajor, c.gccMinor, c.gccPatch), Version(major, minor, patch)))
  {
    match c
    case OtherCompiler => false
    case Gcc(a, b, p) =>
      var have := Version(a, b, p);
      var want := Version(major, minor, patch);
      if WellFormed(have) && WellFormed(want) then EncodeOrder(have, want); Encode(have) >= Encode(want)
      else Encode(have) >= Encode(want)
  }
}
