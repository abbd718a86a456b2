/**
  UTF-8 as the Unicode Standard defines it (section 3.9, Tables 3-6 and 3-7):
  `str::as_bytes` is `Encode` and `std::str::from_utf8` is `Decode`.
 */
module Utf8 {
  import opened Results
  import opened Wire

  predicate IsContinuation(b: Byte)
  {
    0x80 <= b <= 0xBF
  }

  /** The encoding of one scalar value, one to four bytes: the code point's
      bits in groups of six, the leading byte marking the length. */
  function EncodeChar(c: char): seq<Byte>
  {
    var cp := c as int;
    var t1, t2, t3 := cp / 0x40, cp / 0x40 / 0x40, cp / 0x40 / 0x40 / 0x40;
    if cp < 0x80 then [cp]
    else if cp < 0x800 then [0xC0 + t1, 0x80 + cp % 0x40]
    else if cp < 0x1_0000 then [0xE0 + t2, 0x80 + t1 % 0x40, 0x80 + cp % 0x40]
    else [0xF0 + t3, 0x80 + t2 % 0x40, 0x80 + t1 % 0x40, 0x80 + cp % 0x40]
  }

  /** The bytes of a string. */
  function Encode(s: string): seq<Byte>
  {
    if s == [] then [] else EncodeChar(s[0]) + Encode(s[1..])
  }

  lemma SixBits(high: int, low: int)
    requires 0 <= low < 0x40
    ensures (high * 0x40 + low) / 0x40 == high && (high * 0x40 + low) % 0x40 == low
  {
  }

  /** The character a two-byte sequence (C2..DF, 80..BF) stands for. */
  function Decode2(b0: int, b1: Byte): (c: char)
    requires 0xC2 <= b0 <= 0xDF && IsContinuation(b1)
    ensures EncodeChar(c) == [b0, b1]
  {
    var cp := (b0 - 0xC0) * 0x40 + (b1 - 0x80);
    SixBits(b0 - 0xC0, b1 - 0x80);
    cp as char
  }

  /** The character a three-byte sequence of Table 3-7 stands for. */
  function Decode3(b0: int, b1: Byte, b2: Byte): (c: char)
    requires 0xE0 <= b0 <= 0xEF && IsContinuation(b1) && IsContinuation(b2)
    requires b0 == 0xE0 ==> 0xA0 <= b1
    requires b0 == 0xED ==> b1 <= 0x9F
    ensures EncodeChar(c) == [b0, b1, b2]
  {
    var t1 := (b0 - 0xE0) * 0x40 + (b1 - 0x80);
    var cp := t1 * 0x40 + (b2 - 0x80);
    SixBits(t1, b2 - 0x80);
    SixBits(b0 - 0xE0, b1 - 0x80);
    cp as char
  }

  /** The character a four-byte sequence of Table 3-7 stands for. */
  function Decode4(b0: int, b1: Byte, b2: Byte, b3: Byte): (c: char)
    requires 0xF0 <= b0 <= 0xF4 && IsContinuation(b1) && IsContinuation(b2) && IsContinuation(b3)
    requires b0 == 0xF0 ==> 0x90 <= b1
    requires b0 == 0xF4 ==> b1 <= 0x8F
    ensures EncodeChar(c) == [b0, b1, b2, b3]
  {
    var t2 := (b0 - 0xF0) * 0x40 + (b1 - 0x80);
    var t1 := t2 * 0x40 + (b2 - 0x80);
    var cp := t1 * 0x40 + (b3 - 0x80);
    SixBits(t1, b3 - 0x80);
    SixBits(t2, b2 - 0x80);
    SixBits(b0 - 0xF0, b1 - 0x80);
    cp as char
  }

  /**
    The character that the well-formed byte sequence at the front of `bs`
    stands for, with that sequence's length, or `None` when `bs` does not
    start with one of the well-formed sequences of Table 3-7.
   */
  function DecodeFirst(bs: seq<Byte>): (r: Option<(char, nat)>)
    requires |bs| > 0
    ensures r.Some? ==> 1 <= r.value.1 <= |bs| && EncodeChar(r.value.0) == bs[..r.value.1]
  {
    var b0: int := bs[0];
    if b0 <= 0x7F then
      Some((b0 as char, 1))
    else if 0xC2 <= b0 <= 0xDF then
      if 2 <= |bs| && IsContinuation(bs[1]) then Some((Decode2(b0, bs[1]), 2)) else None
    else if 0xE0 <= b0 <= 0xEF then
      var lo := if b0 == 0xE0 then 0xA0 else 0x80;
      var hi := if b0 == 0xED then 0x9F else 0xBF;
      if 3 <= |bs| && lo <= bs[1] <= hi && IsContinuation(bs[2]) then
        Some((Decode3(b0, bs[1], bs[2]), 3))
      else None
    else if 0xF0 <= b0 <= 0xF4 then
      var lo := if b0 == 0xF0 then 0x90 else 0x80;
      var hi := if b0 == 0xF4 then 0x8F else 0xBF;
      if 4 <= |bs| && lo <= bs[1] <= hi && IsContinuation(bs[2]) && IsContinuation(bs[3]) then
        Some((Decode4(b0, bs[1], bs[2], bs[3]), 4))
      else None
    else None
  }

  /**
    The string whose bytes `bs` are, or `None` when `bs` is not valid UTF-8.
    A result is always a string that encodes back to exactly `bs`.
   */
  function Decode(bs: seq<Byte>): (r: Option<string>)
    ensures r.Some? ==> Encode(r.value) == bs
    decreases |bs|
  {
    if bs == [] then Some([])
    else match DecodeFirst(bs)
      case None => None
      case Some((c, n)) =>
        match Decode(bs[n..])
        case None => None
        case Some(rest) =>
          assert ([c] + rest)[1..] == rest;
          assert bs == bs[..n] + bs[n..];
          Some([c] + rest)
  }

  /** Every character's encoding is recognised, whatever follows it. */
  lemma DecodeFirstEncodeChar(c: char, rest: seq<Byte>)
    ensures DecodeFirst(EncodeChar(c) + rest) == Some((c, |EncodeChar(c)|))
  {
  }

  /** Every string's bytes are valid UTF-8 and decode back to the string. */
  lemma {:induction false} DecodeEncode(s: string)
    ensures Decode(Encode(s)) == Some(s)
  {
    if s != [] {
      var bs := Encode(s);
      DecodeFirstEncodeChar(s[0], Encode(s[1..]));
      var n := |EncodeChar(s[0])|;
      assert bs[n..] == Encode(s[1..]);
      DecodeEncode(s[1..]);
      assert [s[0]] + s[1..] == s;
    }
  }

  /** A string of ASCII characters is its own byte string. */
  lemma {:induction false} EncodeAscii(s: string)
    requires forall i :: 0 <= i < |s| ==> s[i] as int < 0x80
    ensures |Encode(s)| == |s|
    ensures forall i :: 0 <= i < |s| ==> Encode(s)[i] == s[i] as int
  {
    if s != [] {
      EncodeAscii(s[1..]);
    }
  }
}
