/**
  The `semver64` column codec of `src/rust_postgres.rs`.

  A version is stored as three big-endian 64-bit words (major, minor,
  patch) followed by a UTF-8 suffix: the pre-release identifiers joined by
  `.` without the leading `-`, then `+` and the build identifiers joined by
  `.` when there is build metadata. Decoding reads the words back and, when
  the suffix is non-empty valid UTF-8, rebuilds the version's text
  (re-inserting the `-` unless the suffix starts with `+`) and hands it to
  the version parser, which this model takes as a parameter.
 */
module RustPostgres {
  import opened Results
  import opened Wire
  import opened SemVer
  import Utf8

  /** The only column type the codec advertises (`accepts`). */
  const TYPE_NAME: string := "semver64"

  /** Size of the fixed prefix: three words. */
  const PREFIX_SIZE: nat := 24

  /** A PostgreSQL type, of which `accepts` inspects only the name. */
  datatype PgType = PgType(name: string)

  /** `to_sql` never produces SQL NULL. */
  datatype IsNull = Yes | No

  /** What `from_sql` can fail with: a short read, or the parser's error. */
  datatype Error = Io(kind: IoError) | Parse(message: string)

  /** The external `Version::parse`. */
  type Parser = string -> Result<Version, string>

  /** `accepts`, from the `accepts_semver!` macro. */
  function Accepts(ty: PgType): (r: bool)
    ensures r <==> ty.name == TYPE_NAME
  {
    match ty.name
    case "semver64" => true
    case _ => false
  }

  // ---------------------------------------------------------------------------
  // Encoding

  /** The text stored after the prefix. */
  function Suffix(v: Version): string
  {
    (if v.pre != [] then Join(v.pre) else "")
      + (if v.build != [] then "+" + Join(v.build) else "")
  }

  /** The column value `to_sql` appends for `v`. */
  function Encoding(v: Version): seq<Byte>
  {
    BeBytes(v.major) + BeBytes(v.minor) + BeBytes(v.patch) + Utf8.Encode(Suffix(v))
  }

  /**
    One of `to_sql`'s two loops: pushes each identifier's text onto `meta`,
    with a `.` before every identifier but the first.
   */
  method PushJoined(meta: string, ids: seq<Identifier>) returns (r: string)
    ensures r == meta + Join(ids)
  {
    r := meta;
    for i := 0 to |ids|
      invariant r == meta + Join(ids[..i])
    {
      if i != 0 {
        r := r + ".";
      }
      r := r + Text(ids[i]);
      JoinSnoc(ids, i);
    }
    assert ids[..|ids|] == ids;
  }

  /**
    The first half of `to_sql`: the pre-release identifiers joined by `.`
    when there are any, then `+` and the build identifiers joined by `.`
    when there are any.
   */
  method Meta(v: Version) returns (meta: string)
    ensures meta == Suffix(v)
  {
    meta := "";
    if |v.pre| != 0 {
      meta := PushJoined(meta, v.pre);
      assert meta == [] + Join(v.pre) == Join(v.pre);
    }
    ghost var preText := meta;
    if |v.build| != 0 {
      meta := meta + "+";
      meta := PushJoined(meta, v.build);
      assert meta == preText + ("+" + Join(v.build));
    }
  }

  /**
    `to_sql`: builds the suffix text, then appends the three words and the
    suffix's bytes to `out`, leaving what `out` already held in place.
   */
  method ToSql(v: Version, out: BytesMut) returns (r: IsNull)
    modifies out
    ensures out.bytes == old(out.bytes) + Encoding(v)
    ensures r == No
  {
    var meta := Meta(v);
    ghost var a, b, c, d := BeBytes(v.major), BeBytes(v.minor), BeBytes(v.patch), Utf8.Encode(meta);
    out.PutU64(v.major);
    out.PutU64(v.minor);
    out.PutU64(v.patch);
    out.PutSlice(Utf8.Encode(meta));
    assert out.bytes == old(out.bytes) + (a + b + c + d);
    r := No;
  }

  // ---------------------------------------------------------------------------
  // Decoding

  /**
    The text handed to the parser for a non-empty suffix `s`: the suffix
    follows the numbers directly when it starts with `+`, and after a
    re-inserted `-` otherwise.
   */
  function Rebuild(major: U64, minor: U64, patch: U64, s: string): string
  {
    if |s| > 0 && s[0] == '+' then Triple(major, minor, patch) + s
    else Triple(major, minor, patch) + "-" + s
  }

  /** The parser's outcome, its error wrapped as a codec error. */
  function LiftParse(r: Result<Version, string>): Result<Version, Error>
  {
    match r
    case Ok(v) => Ok(v)
    case Err(m) => Err(Parse(m))
  }

  /** The value `from_sql` returns for the column bytes `buf`. */
  function Decode(buf: seq<Byte>, parse: Parser): Result<Version, Error>
  {
    if |buf| < PREFIX_SIZE then Err(Io(UnexpectedEof))
    else
      var major, minor, patch := FromBe(buf[..8]), FromBe(buf[8..16]), FromBe(buf[16..24]);
      WordLimit();
      var text := Utf8.Decode(buf[PREFIX_SIZE..]);
      if text.Some? && text.value != "" then LiftParse(parse(Rebuild(major, minor, patch, text.value)))
      else Ok(Version(major, minor, patch, [], []))
  }

  /**
    `from_sql`: three word reads advance a cursor over `buf`, each failing
    the call when fewer than eight bytes remain; the rest of the bytes,
    when they are non-empty valid UTF-8, are rebuilt into text and parsed,
    and otherwise the three words alone make the result.
   */
  method FromSql(buf: seq<Byte>, parse: Parser) returns (r: Result<Version, Error>)
    ensures r == Decode(buf, parse)
  {
    var cursor := buf;
    var read := ReadU64(cursor);
    if read.Err? {
      return Err(Io(read.error));
    }
    var major := read.value.0;
    cursor := read.value.1;
    read := ReadU64(cursor);
    if read.Err? {
      return Err(Io(read.error));
    }
    var minor := read.value.0;
    cursor := read.value.1;
    read := ReadU64(cursor);
    if read.Err? {
      return Err(Io(read.error));
    }
    var patch := read.value.0;
    cursor := read.value.1;

    assert buf == BeBytes(major) + BeBytes(minor) + BeBytes(patch) + cursor;
    BeBytesInverse(major);
    BeBytesInverse(minor);
    BeBytesInverse(patch);
    assert buf[..8] == BeBytes(major) && buf[8..16] == BeBytes(minor) && buf[16..24] == BeBytes(patch);
    assert cursor == buf[PREFIX_SIZE..];

    var text := Utf8.Decode(cursor);
    if text.Some? && text.value != "" {
      var tmp := Rebuild(major, minor, patch, text.value);
      r := LiftParse(parse(tmp));
    } else {
      r := Ok(Version(major, minor, patch, [], []));
    }
  }

  // ---------------------------------------------------------------------------
  // Properties

  /**
    The column value of any version starts with its three words, in order:
    each 8-byte slice reads back as major, minor and patch. A release
    version's value is those 24 bytes alone.
   */
  lemma EncodingWords(v: Version)
    ensures |Encoding(v)| >= PREFIX_SIZE
    ensures FromBe(Encoding(v)[..8]) == v.major
    ensures FromBe(Encoding(v)[8..16]) == v.minor
    ensures FromBe(Encoding(v)[16..24]) == v.patch
    ensures IsRelease(v) ==> |Encoding(v)| == PREFIX_SIZE
  {
    var e := Encoding(v);
    BeBytesInverse(v.major);
    BeBytesInverse(v.minor);
    BeBytesInverse(v.patch);
    assert e[..8] == BeBytes(v.major);
    assert e[8..16] == BeBytes(v.minor);
    assert e[16..24] == BeBytes(v.patch);
  }

  /**
    For a valid version the suffix is one byte per character, so the column
    value is 24 bytes plus the suffix's length, and exactly 24 bytes for a
    release version.
   */
  lemma EncodingLayout(v: Version)
    requires Valid(v)
    ensures |Encoding(v)| == PREFIX_SIZE + |Suffix(v)|
    ensures IsRelease(v) <==> |Encoding(v)| == PREFIX_SIZE
  {
    BeBytesInverse(v.major);
    BeBytesInverse(v.minor);
    BeBytesInverse(v.patch);
    SuffixAscii(v);
    SuffixDelimiters(v);
    Utf8.EncodeAscii(Suffix(v));
  }

  /** The suffix of a valid version is ASCII. */
  lemma SuffixAscii(v: Version)
    requires Valid(v)
    ensures forall i :: 0 <= i < |Suffix(v)| ==> Suffix(v)[i] as int < 0x80
  {
    JoinShape(v.pre);
    JoinShape(v.build);
    var p := if v.pre != [] then Join(v.pre) else "";
    var s := Suffix(v);
    forall i | 0 <= i < |s| ensures s[i] as int < 0x80 {
      if i < |p| {
        assert s[i] == p[i];
      } else if i > |p| {
        assert s[i] == Join(v.build)[i - |p| - 1];
      }
    }
  }

  /**
    The suffix of a valid version is empty exactly for a release version,
    and starts with `+` exactly when there is build metadata and no
    pre-release: the first pre-release identifier is never empty and never
    starts with `+`.
   */
  lemma SuffixDelimiters(v: Version)
    requires Valid(v)
    ensures Suffix(v) == "" <==> IsRelease(v)
    ensures |Suffix(v)| > 0 && Suffix(v)[0] == '+' <==> v.pre == [] && v.build != []
  {
    JoinShape(v.pre);
    if v.pre != [] {
      assert Suffix(v)[0] == Join(v.pre)[0];
    }
  }

  /**
    For every valid version with a pre-release or build metadata, the text
    `from_sql` rebuilds from the suffix `to_sql` stored is exactly the
    version's canonical text: the dropped `-` comes back exactly when it
    was there.
   */
  lemma RebuildCanonical(v: Version)
    requires Valid(v) && !IsRelease(v)
    ensures Rebuild(v.major, v.minor, v.patch, Suffix(v)) == Canonical(v)
  {
    SuffixDelimiters(v);
    var t := Triple(v.major, v.minor, v.patch);
    var s := Suffix(v);
    var b := if v.build != [] then "+" + Join(v.build) else "";
    if v.pre != [] {
      assert s == Join(v.pre) + b;
      calc {
        Rebuild(v.major, v.minor, v.patch, s);
        t + "-" + (Join(v.pre) + b);
        t + ("-" + Join(v.pre)) + b;
        Canonical(v);
      }
    } else {
      assert s == "+" + Join(v.build);
      calc {
        Rebuild(v.major, v.minor, v.patch, s);
        t + ("+" + Join(v.build));
        t + "" + ("+" + Join(v.build));
        Canonical(v);
      }
    }
  }

  /**
    Decoding an encoded valid version: a release version comes back as it
    was without a parser call; any other version comes back as whatever the
    parser makes of its canonical text.
   */
  lemma DecodeEncoding(v: Version, parse: Parser)
    requires Valid(v)
    ensures IsRelease(v) ==> Decode(Encoding(v), parse) == Ok(v)
    ensures !IsRelease(v) ==> Decode(Encoding(v), parse) == LiftParse(parse(Canonical(v)))
  {
    var e := Encoding(v);
    EncodingWords(v);
    EncodingLayout(v);
    assert e[PREFIX_SIZE..] == Utf8.Encode(Suffix(v));
    Utf8.DecodeEncode(Suffix(v));
    SuffixDelimiters(v);
    if !IsRelease(v) {
      RebuildCanonical(v);
    }
  }

  /**
    Round trip: when the parser reads a version's canonical text back as the
    version, `from_sql` of what `to_sql` wrote is that version.
   */
  lemma RoundTrip(v: Version, parse: Parser)
    requires Valid(v)
    requires !IsRelease(v) ==> parse(Canonical(v)) == Ok(v)
    ensures Decode(Encoding(v), parse) == Ok(v)
  {
    DecodeEncoding(v, parse);
  }

  /** Fewer than 24 bytes, and only then, fail with `UnexpectedEof`. */
  lemma DecodeShort(buf: seq<Byte>, parse: Parser)
    ensures Decode(buf, parse) == Err(Io(UnexpectedEof)) <==> |buf| < PREFIX_SIZE
  {
  }

  /**
    When the bytes after the prefix are not valid UTF-8, or there are none,
    `from_sql` succeeds without calling the parser and returns a release
    version whose encoding is the prefix: an undecodable suffix is dropped
    rather than reported.
   */
  lemma DecodeWithoutSuffix(buf: seq<Byte>, parse: Parser)
    requires |buf| >= PREFIX_SIZE
    requires Utf8.Decode(buf[PREFIX_SIZE..]) in {None, Some("")}
    ensures Decode(buf, parse).Ok?
    ensures IsRelease(Decode(buf, parse).value)
    ensures Encoding(Decode(buf, parse).value) == buf[..PREFIX_SIZE]
  {
    var v := Decode(buf, parse).value;
    WordLimit();
    ToBeFromBe(buf[..8]);
    ToBeFromBe(buf[8..16]);
    ToBeFromBe(buf[16..24]);
    assert buf[..PREFIX_SIZE] == buf[..8] + buf[8..16] + buf[16..24];
  }

  /**
    For a value of exactly 24 bytes, encoding what was decoded gives the
    same bytes back.
   */
  lemma EncodeDecodePrefix(buf: seq<Byte>, parse: Parser)
    requires |buf| == PREFIX_SIZE
    ensures Decode(buf, parse).Ok? && Encoding(Decode(buf, parse).value) == buf
  {
    assert buf[PREFIX_SIZE..] == [];
    DecodeWithoutSuffix(buf, parse);
  }

  /**
    The stored suffixes of the versions the round-trip tests use, and the
    text decoding rebuilds from each.
   */
  lemma TestVersionsSuffixes()
    ensures Suffix(Version(1, 2, 0, [AlphaNumeric("bar")], [])) == "bar"
    ensures Rebuild(1, 2, 0, "bar") == "1.2.0-bar"
    ensures Suffix(Version(1, 2, 0, [], [AlphaNumeric("foo")])) == "+foo"
    ensures Rebuild(1, 2, 0, "+foo") == "1.2.0+foo"
    ensures Suffix(Version(1, 2, 0, [AlphaNumeric("bar")], [AlphaNumeric("foo")])) == "bar+foo"
    ensures Rebuild(1, 2, 0, "bar+foo") == "1.2.0-bar+foo"
    ensures Suffix(Version(1, 2, 3, [AlphaNumeric("foo")], [AlphaNumeric("bar")])) == "foo+bar"
    ensures Rebuild(1, 2, 3, "foo+bar") == "1.2.3-foo+bar"
  {
    assert Triple(1, 2, 0) == "1.2.0";
    assert Triple(1, 2, 3) == "1.2.3";
    assert Join([AlphaNumeric("bar")]) == "bar";
    assert Join([AlphaNumeric("foo")]) == "foo";
  }

  /**
    Any three words followed by the byte 0xFF, which is not UTF-8, decode to
    the release version of those words instead of an error.
   */
  lemma InvalidSuffixIsDropped(major: U64, minor: U64, patch: U64, parse: Parser)
    ensures Decode(BeBytes(major) + BeBytes(minor) + BeBytes(patch) + [0xFF], parse)
         == Ok(Version(major, minor, patch, [], []))
  {
    var buf := BeBytes(major) + BeBytes(minor) + BeBytes(patch) + [0xFF];
    BeBytesInverse(major);
    BeBytesInverse(minor);
    BeBytesInverse(patch);
    assert buf[..8] == BeBytes(major);
    assert buf[8..16] == BeBytes(minor);
    assert buf[16..24] == BeBytes(patch);
    assert buf[PREFIX_SIZE..] == [0xFF];
    assert Utf8.Decode([0xFF]) == None;
  }
}
