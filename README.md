# semver64 column codec

A Dafny model of the binary codec that stores a semantic version in a
PostgreSQL column of type `semver64` (`src/rust_postgres.rs`), with proofs
about it.

`to_sql` builds a suffix string. It holds the pre-release identifiers
joined by `.`, without the leading `-`. When there is build metadata, it
then holds `+` and the build identifiers joined by `.`. It then appends
three big-endian 64-bit words (major, minor, patch) and the suffix's UTF-8
bytes to the output buffer. `from_sql` reads the three words through a
cursor; any short read fails the call. If the remaining bytes are
non-empty valid UTF-8, it rebuilds the version's text and hands it to the
version parser: `M.m.p` followed by the suffix when the suffix starts with
`+`, `M.m.p-` followed by the suffix otherwise. In every other case it
returns the release version `M.m.p`. `accepts` admits only the type name
`semver64`.

Modules, one per concern:

- `Results`: `Option` and `Result`.
- `Wire`: bytes, `u64`, big-endian words (`to_be_bytes`, `read_u64` on a
  slice cursor) and the `BytesMut` output buffer as a class whose
  `put_u64`/`put_slice` append to a byte sequence.
- `Utf8`: UTF-8 as section 3.9 of the Unicode Standard defines it. `Encode`
  is `str::as_bytes`. `Decode` is `std::str::from_utf8`; it accepts exactly
  the well-formed sequences of Table 3-7.
- `SemVer`: the `Version` value with `Numeric`/`AlphaNumeric`
  identifiers, decimal `Display` of numbers, joining identifiers with `.`,
  and the canonical text of a version (Semantic Versioning 2.0.0, items 2,
  9 and 10).
- `RustPostgres`: `Accepts`, `Meta` and `ToSql` (the two halves of
  `to_sql`), `FromSql`, the specification
  functions `Suffix`, `Encoding`, `Rebuild` and `Decode`, and the lemmas.

The external parser `Version::parse` is a parameter of type
`string -> Result<Version, string>`. Nothing about its grammar is assumed,
except in `RoundTrip`, which states what follows if the parser reads a
canonical text back as its version.

Behaviour of the code worth noting:

- A suffix that is not valid UTF-8 is not reported as an error. The match
  in `from_sql` sends it to the same `_` arm as an empty suffix, so the
  result is the release version of the three words and the suffix is
  dropped (`DecodeWithoutSuffix`, `InvalidSuffixIsDropped`).
- A buffer shorter than 24 bytes fails with the I/O error `UnexpectedEof`
  that `read_u64` raises.
- Parser failures are passed on with the parser's message (`Parse`).
- The rebuilt text is the canonical text because the first pre-release
  identifier is non-empty and does not start with `+` (`SuffixDelimiters`).
  For the parser to read it back as the same version, every identifier
  must also be non-empty and free of `.` and `+` (`Valid`).

## Model

| member | source | states |
|---|---|---|
| `RustPostgres.Accepts` | src/rust_postgres.rs:9-18 | true exactly when the type's name is `semver64` |
| `RustPostgres.PushJoined` | src/rust_postgres.rs:64-69 | the loop leaves `meta` followed by the identifiers' texts separated by `.`, with no separator before the first |
| `RustPostgres.Meta` | src/rust_postgres.rs:61-79 | the text built is the suffix: pre-release identifiers joined by `.` with no leading `-`, then `+` and the build identifiers joined by `.` only when there is build metadata |
| `RustPostgres.ToSql` | src/rust_postgres.rs:56-85 | the buffer afterwards is its old contents followed by the encoding (three big-endian words, then the suffix bytes); the result is `IsNull::No` |
| `RustPostgres.FromSql` | src/rust_postgres.rs:23-48 | the cursor-based reads return exactly the specification value `Decode`: a short-read error under 24 bytes, the parser's result on the rebuilt text for a non-empty valid UTF-8 suffix, the release version otherwise |
| `RustPostgres.EncodingWords` | src/rust_postgres.rs:80-83 | for every version, the value's first three 8-byte slices read back as major, minor and patch, in that order; a release version's value is exactly 24 bytes |
| `RustPostgres.EncodingLayout` | src/rust_postgres.rs:80-83 | a valid version's encoding is 24 bytes plus the suffix length, and exactly 24 bytes if and only if the version has no pre-release and no build metadata |
| `RustPostgres.SuffixAscii` | src/rust_postgres.rs:61-79 | a valid version's suffix is ASCII, so it takes one byte per character |
| `RustPostgres.SuffixDelimiters` | src/rust_postgres.rs:61-79 | the suffix is empty if and only if pre and build are both empty, and it starts with `+` if and only if pre is empty and build is not |
| `RustPostgres.RebuildCanonical` | src/rust_postgres.rs:33-37 | for every valid non-release version, the text rebuilt from the stored suffix is the version's canonical text `M.m.p[-pre][+build]` |
| `RustPostgres.DecodeEncoding` | src/rust_postgres.rs:27-46 | decoding an encoded valid version returns a release version unchanged without a parser call, and otherwise returns the parser's result on the canonical text |
| `RustPostgres.RoundTrip` | tests/rust_postgres.rs:81-118 | if the parser reads a version's canonical text back as that version, decoding its encoding returns the version |
| `RustPostgres.DecodeShort` | src/rust_postgres.rs:27-29 | decoding fails with `UnexpectedEof` if and only if fewer than 24 bytes are given |
| `RustPostgres.DecodeWithoutSuffix` | src/rust_postgres.rs:40-46 | with an empty or invalid UTF-8 suffix, decoding succeeds with a release version whose encoding is the 24-byte prefix, so the suffix is dropped, not reported |
| `RustPostgres.EncodeDecodePrefix` | src/rust_postgres.rs:40-46 | a 24-byte value decodes to a version that encodes back to the same 24 bytes |
| `RustPostgres.InvalidSuffixIsDropped` | src/rust_postgres.rs:30-46 | three words followed by the byte 0xFF decode to the release version of those words |
| `RustPostgres.TestVersionsSuffixes` | tests/rust_postgres.rs:32-117 | `1.2.0-bar`, `1.2.0+foo`, `1.2.0-bar+foo` and `1.2.3-foo+bar` have stored suffixes `bar`, `+foo`, `bar+foo` and `foo+bar`, and those rebuild to the original texts |
| `Wire.ReadU64` | src/rust_postgres.rs:27-29 | succeeds if and only if eight bytes remain; the word's big-endian bytes followed by the rest of the cursor are the cursor it read from |
| `Wire.FromBeToBe` | src/rust_postgres.rs:80-82 | reading back the big-endian bytes of a number below 256^k gives the number |
| `Wire.ToBeFromBe` | src/rust_postgres.rs:27-29 | writing the number a byte string denotes gives the byte string back |
| `Wire.BeBytesInverse` | src/rust_postgres.rs:80-82 | `put_u64` writes eight bytes and `read_u64` of them returns the word |
| `Wire.BytesMut.PutU64` | src/rust_postgres.rs:80-82 | appends the word's eight big-endian bytes and leaves the earlier contents in place |
| `Wire.BytesMut.PutSlice` | src/rust_postgres.rs:83 | appends the slice and leaves the earlier contents in place |
| `Utf8.DecodeFirst` | src/rust_postgres.rs:30 | a recognised leading sequence has 1 to 4 bytes and is exactly the encoding of the character returned |
| `Utf8.Decode` | src/rust_postgres.rs:30 | a decoded string encodes back to exactly the bytes given |
| `Utf8.DecodeEncode` | src/rust_postgres.rs:83 | the bytes of every string are valid UTF-8 and decode back to the string |
| `Utf8.EncodeAscii` | src/rust_postgres.rs:83 | an ASCII string's bytes are its character codes, one per character |
| `SemVer.Decimal` | src/rust_postgres.rs:34-36 | the numeral is non-empty, all decimal digits, without a leading zero |
| `SemVer.DecimalValueOfDecimal` | src/rust_postgres.rs:34-36 | the numeral written for a number denotes that number |
| `SemVer.JoinSnoc` | src/rust_postgres.rs:64-69 | joining one more identifier appends a `.` (except for the first) and its text |
| `SemVer.JoinShape` | src/rust_postgres.rs:64-78 | joined valid identifiers are empty if and only if there are none, and hold only identifier characters and `.` |
| `SemVer.TextShape` | src/rust_postgres.rs:68 | a valid identifier's text is non-empty and drawn from `[0-9A-Za-z-]` |

## Left out

- `src/async_graphql.rs` is not part of this model. It only passes text to
  and from the external parser and formatter.
- `tests/rust_postgres.rs` runs against a live PostgreSQL server. Only the
  versions it round-trips are used, as lemma cases.
- The version parser `Version::parse` is a parameter. Its grammar,
  precedence and error messages are outside the model.
- The `to_sql_checked!` macro is left out (it checks `accepts` before
  calling `to_sql` and reports a wrong-type error), because it belongs to
  the database client library.
- The `&Type` arguments of `from_sql` and `to_sql` are left out, because
  both functions ignore them.
- Boxing of errors as `Box<dyn Error>` is left out. Errors are the
  `RustPostgres.Error` datatype.
- `BytesMut` capacity and reallocation are left out. The buffer is a byte
  sequence that grows.
- `VersionReq` and the rest of the crate are not part of this model;
  `src/rust_postgres.rs` has no code for range requirements.
- RoundTrip: the parser's behaviour is an assumption of the lemma, stated
  as a precondition on the parser, because the parser is external.
