/**
  The semantic-version value the codec stores (`semver::Version` with its
  `Identifier`s) and its canonical text, the form `Display` writes and the
  parser reads: `major.minor.patch`, then `-` and the pre-release
  identifiers joined by `.`, then `+` and the build identifiers joined by
  `.` (Semantic Versioning 2.0.0, items 2, 9 and 10).
 */
module SemVer {
  import opened Wire

  /** One pre-release or build identifier. */
  datatype Identifier = Numeric(n: U64) | AlphaNumeric(s: string)

  datatype Version = Version(
    major: U64,
    minor: U64,
    patch: U64,
    pre: seq<Identifier>,
    build: seq<Identifier>)

  /** The characters Semantic Versioning allows in an identifier: [0-9A-Za-z-]. */
  predicate IsIdentifierChar(c: char)
  {
    '0' <= c <= '9' || 'A' <= c <= 'Z' || 'a' <= c <= 'z' || c == '-'
  }

  predicate ValidIdentifier(id: Identifier)
  {
    id.AlphaNumeric? ==> |id.s| > 0 && forall i :: 0 <= i < |id.s| ==> IsIdentifierChar(id.s[i])
  }

  predicate ValidIdentifiers(ids: seq<Identifier>)
  {
    forall i :: 0 <= i < |ids| ==> ValidIdentifier(ids[i])
  }

  /** What the parser can produce: every identifier non-empty and drawn from [0-9A-Za-z-]. */
  predicate Valid(v: Version)
  {
    ValidIdentifiers(v.pre) && ValidIdentifiers(v.build)
  }

  predicate IsRelease(v: Version)
  {
    v.pre == [] && v.build == []
  }

  function DigitChar(d: nat): char
    requires d < 10
  {
    ('0' as int + d) as char
  }

  /** The decimal numeral of `n` without leading zeros (`Display` of an unsigned integer). */
  function Decimal(n: nat): (s: string)
    ensures |s| > 0
    ensures forall i :: 0 <= i < |s| ==> '0' <= s[i] <= '9'
    ensures |s| > 1 ==> s[0] != '0'
  {
    if n < 10 then [DigitChar(n)] else Decimal(n / 10) + [DigitChar(n % 10)]
  }

  /** The number a string of decimal digits denotes. */
  function DecimalValue(s: string): nat
    requires forall i :: 0 <= i < |s| ==> '0' <= s[i] <= '9'
  {
    if s == [] then 0 else DecimalValue(s[..|s| - 1]) * 10 + (s[|s| - 1] as int - '0' as int)
  }

  /** The numeral of `n` denotes `n`. */
  lemma {:induction false} DecimalValueOfDecimal(n: nat)
    ensures DecimalValue(Decimal(n)) == n
  {
    if n >= 10 {
      var s := Decimal(n);
      assert s[..|s| - 1] == Decimal(n / 10);
      DecimalValueOfDecimal(n / 10);
    }
  }

  /** `Display` of an identifier. */
  function Text(id: Identifier): string
  {
    match id
    case Numeric(n) => Decimal(n)
    case AlphaNumeric(s) => s
  }

  /** A valid identifier's text is non-empty and drawn from [0-9A-Za-z-]. */
  lemma TextShape(id: Identifier)
    requires ValidIdentifier(id)
    ensures |Text(id)| > 0
    ensures forall i :: 0 <= i < |Text(id)| ==> IsIdentifierChar(Text(id)[i])
  {
  }

  /** The identifiers' texts joined by `.`. */
  function Join(ids: seq<Identifier>): string
  {
    if |ids| == 0 then ""
    else if |ids| == 1 then Text(ids[0])
    else Join(ids[..|ids| - 1]) + "." + Text(ids[|ids| - 1])
  }

  /** Joining one more identifier adds a `.` (unless it is the first) and its text. */
  lemma JoinSnoc(ids: seq<Identifier>, i: nat)
    requires i < |ids|
    ensures Join(ids[..i + 1]) == (if i == 0 then "" else Join(ids[..i]) + ".") + Text(ids[i])
  {
    assert ids[..i + 1][..i] == ids[..i];
  }

  /**
    A joined list of valid identifiers is empty exactly when the list is,
    and holds nothing but identifier characters and the `.` separator;
    in particular it holds no `+`.
   */
  lemma {:induction false} JoinShape(ids: seq<Identifier>)
    requires ValidIdentifiers(ids)
    ensures |Join(ids)| == 0 <==> ids == []
    ensures forall i :: 0 <= i < |Join(ids)| ==> IsIdentifierChar(Join(ids)[i]) || Join(ids)[i] == '.'
  {
    if |ids| == 1 {
      TextShape(ids[0]);
    } else if |ids| > 1 {
      var init := ids[..|ids| - 1];
      assert ValidIdentifiers(init) by {
        forall i | 0 <= i < |init| ensures ValidIdentifier(init[i]) {
          assert init[i] == ids[i];
        }
      }
      JoinShape(init);
      TextShape(ids[|ids| - 1]);
      var j := Join(ids);
      var a, b := Join(init), Text(ids[|ids| - 1]);
      assert j == a + "." + b;
      forall i | 0 <= i < |j| ensures IsIdentifierChar(j[i]) || j[i] == '.' {
        if i < |a| {
          assert j[i] == a[i];
        } else if i > |a| {
          assert j[i] == b[i - |a| - 1];
        }
      }
    }
  }

  /** The text `major.minor.patch`. */
  function Triple(major: U64, minor: U64, patch: U64): string
  {
    Decimal(major) + "." + Decimal(minor) + "." + Decimal(patch)
  }

  /** The canonical text of a version (`Display`). */
  function Canonical(v: Version): string
  {
    Triple(v.major, v.minor, v.patch)
      + (if v.pre != [] then "-" + Join(v.pre) else "")
      + (if v.build != [] then "+" + Join(v.build) else "")
  }
}
