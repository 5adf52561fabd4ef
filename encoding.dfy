/**
 * File contents as bytes and their decoding to text.
 *
 * `read_text_with_fallback` reads a file as text with `Path.read_text`,
 * first as strict UTF-8 and, if that raises, as latin-1.  Text mode also
 * applies universal-newline translation ("\r\n" and a lone "\r" become
 * "\n").  Writing encodes with the codec the file was read with; latin-1
 * can only encode code points below 256.
 */
module Encoding {
  import opened Wrappers

  newtype byte = x: int | 0 <= x < 0x100

  datatype Codec = Utf8 | Latin1

  // ---------------------------------------------------------------------
  // UTF-8
  // ---------------------------------------------------------------------

  predicate IsContinuation(b: byte) { 0x80 <= b < 0xC0 }

  /** A Unicode scalar value, the only thing a `char` can hold. */
  predicate IsScalar(cp: int) { 0 <= cp < 0xD800 || 0xE000 <= cp < 0x110000 }

  /** The UTF-8 encoding of one character. */
  function EncodeChar(c: char): (bs: seq<byte>)
    ensures 1 <= |bs| <= 4
  {
    var cp := c as int;
    if cp < 0x80 then
      [cp as byte]
    else if cp < 0x800 then
      [(0xC0 + cp / 64) as byte, (0x80 + cp % 64) as byte]
    else if cp < 0x10000 then
      [(0xE0 + cp / 4096) as byte, (0x80 + (cp / 64) % 64) as byte, (0x80 + cp % 64) as byte]
    else
      [(0xF0 + cp / 262144) as byte, (0x80 + (cp / 4096) % 64) as byte,
       (0x80 + (cp / 64) % 64) as byte, (0x80 + cp % 64) as byte]
  }

  /** `s.encode("utf-8")` (a `char` is never a lone surrogate, so nothing is dropped). */
  function Utf8Encode(s: string): (bs: seq<byte>)
    ensures |s| <= |bs| <= 4 * |s|
    decreases |s|
  {
    if s == [] then [] else EncodeChar(s[0]) + Utf8Encode(s[1..])
  }

  /** The byte after a three-byte lead: excludes overlong forms and surrogates. */
  predicate SecondOfThree(b0: byte, b1: byte) {
    if b0 == 0xE0 then 0xA0 <= b1 <= 0xBF
    else if b0 == 0xED then 0x80 <= b1 <= 0x9F
    else IsContinuation(b1)
  }

  /** The byte after a four-byte lead: excludes overlong forms and code points above U+10FFFF. */
  predicate SecondOfFour(b0: byte, b1: byte) {
    if b0 == 0xF0 then 0x90 <= b1 <= 0xBF
    else if b0 == 0xF4 then 0x80 <= b1 <= 0x8F
    else IsContinuation(b1)
  }

  /**
   * The length of the well-formed UTF-8 sequence that starts `bs`, or 0 when
   * `bs` does not start with one (the strict decoder's acceptance table).
   */
  function LeadLength(bs: seq<byte>): (n: nat)
    ensures n <= 4 && n <= |bs|
  {
    if |bs| == 0 then 0
    else if bs[0] < 0x80 then 1
    else if 0xC2 <= bs[0] <= 0xDF then
      if |bs| >= 2 && IsContinuation(bs[1]) then 2 else 0
    else if 0xE0 <= bs[0] <= 0xEF then
      if |bs| >= 3 && SecondOfThree(bs[0], bs[1]) && IsContinuation(bs[2]) then 3 else 0
    else if 0xF0 <= bs[0] <= 0xF4 then
      if |bs| >= 4 && SecondOfFour(bs[0], bs[1]) && IsContinuation(bs[2]) && IsContinuation(bs[3])
      then 4 else 0
    else 0
  }

  /** The code point of the well-formed sequence that starts `bs`. */
  function LeadCodePoint(bs: seq<byte>): (cp: int)
    requires LeadLength(bs) > 0
    ensures IsScalar(cp)
  {
    var n := LeadLength(bs);
    if n == 1 then bs[0] as int
    else if n == 2 then (bs[0] as int - 0xC0) * 64 + (bs[1] as int - 0x80)
    else if n == 3 then
      (bs[0] as int - 0xE0) * 4096 + (bs[1] as int - 0x80) * 64 + (bs[2] as int - 0x80)
    else
      (bs[0] as int - 0xF0) * 262144 + (bs[1] as int - 0x80) * 4096
        + (bs[2] as int - 0x80) * 64 + (bs[3] as int - 0x80)
  }

  /** `bs.decode("utf-8")`: `None` where Python raises `UnicodeDecodeError`. */
  function Utf8Decode(bs: seq<byte>): Option<string>
    decreases |bs|
  {
    if bs == [] then Some([])
    else
      var n := LeadLength(bs);
      if n == 0 then None
      else match Utf8Decode(bs[n..])
        case None => None
        case Some(rest) => Some([LeadCodePoint(bs) as char] + rest)
  }

  lemma DivMod64(q: int, r: int)
    requires 0 <= r < 64
    ensures (q * 64 + r) / 64 == q && (q * 64 + r) % 64 == r
  {
  }

  /** Decoding the first character's encoding gives the character back, whatever follows. */
  lemma DecodeEncodeChar(c: char, rest: seq<byte>)
    ensures LeadLength(EncodeChar(c) + rest) == |EncodeChar(c)|
    ensures LeadCodePoint(EncodeChar(c) + rest) == c as int
  {
    var cp := c as int;
    if cp < 0x80 {
    } else if cp < 0x800 {
      DivMod64(cp / 64, cp % 64);
    } else if cp < 0x10000 {
      DecodeEncodeThree(cp, EncodeChar(c) + rest);
    } else {
      DecodeEncodeFour(cp, EncodeChar(c) + rest);
    }
  }

  lemma DecodeEncodeThree(cp: int, bs: seq<byte>)
    requires 0x800 <= cp < 0x10000 && IsScalar(cp) && |bs| >= 3
    requires bs[0] as int == 0xE0 + cp / 4096 && bs[1] as int == 0x80 + (cp / 64) % 64
    requires bs[2] as int == 0x80 + cp % 64
    ensures LeadLength(bs) == 3 && LeadCodePoint(bs) == cp
  {
    var a, b, d := cp / 4096, (cp / 64) % 64, cp % 64;
    assert cp / 64 == a * 64 + b;
    assert cp == a * 4096 + b * 64 + d;
    assert a == 0 ==> b >= 0x20;
    assert a == 0xD ==> b < 0x20;
  }

  lemma DecodeEncodeFour(cp: int, bs: seq<byte>)
    requires 0x10000 <= cp < 0x110000 && |bs| >= 4
    requires bs[0] as int == 0xF0 + cp / 262144 && bs[1] as int == 0x80 + (cp / 4096) % 64
    requires bs[2] as int == 0x80 + (cp / 64) % 64 && bs[3] as int == 0x80 + cp % 64
    ensures LeadLength(bs) == 4 && LeadCodePoint(bs) == cp
  {
    var a, b, d, e := cp / 262144, (cp / 4096) % 64, (cp / 64) % 64, cp % 64;
    assert cp / 4096 == a * 64 + b;
    assert cp / 64 == (cp / 4096) * 64 + d;
    assert cp == a * 262144 + b * 4096 + d * 64 + e;
    assert a == 0 ==> b >= 0x10;
    assert a == 4 ==> b < 0x10;
  }

  /** Encoding the leading sequence's code point gives back the same bytes. */
  lemma EncodeDecodeLead(bs: seq<byte>)
    requires LeadLength(bs) > 0
    ensures EncodeChar(LeadCodePoint(bs) as char) == bs[..LeadLength(bs)]
  {
    var n := LeadLength(bs);
    if n == 2 {
      EncodeDecodeTwo(bs);
    } else if n == 3 {
      EncodeDecodeThree(bs);
    } else if n == 4 {
      EncodeDecodeFour(bs);
    }
  }

  lemma EncodeDecodeTwo(bs: seq<byte>)
    requires LeadLength(bs) == 2
    ensures EncodeChar(LeadCodePoint(bs) as char) == bs[..2]
  {
    DivMod64(bs[0] as int - 0xC0, bs[1] as int - 0x80);
  }

  lemma EncodeDecodeThree(bs: seq<byte>)
    requires LeadLength(bs) == 3
    ensures EncodeChar(LeadCodePoint(bs) as char) == bs[..3]
  {
    var cp := LeadCodePoint(bs);
    var hi := (bs[0] as int - 0xE0) * 64 + (bs[1] as int - 0x80);
    assert cp == hi * 64 + (bs[2] as int - 0x80);
    DivMod64(hi, bs[2] as int - 0x80);
    DivMod64(bs[0] as int - 0xE0, bs[1] as int - 0x80);
    assert cp / 4096 == hi / 64;
  }

  lemma EncodeDecodeFour(bs: seq<byte>)
    requires LeadLength(bs) == 4
    ensures EncodeChar(LeadCodePoint(bs) as char) == bs[..4]
  {
    var cp := LeadCodePoint(bs);
    var top := (bs[0] as int - 0xF0) * 64 + (bs[1] as int - 0x80);
    var hi := top * 64 + (bs[2] as int - 0x80);
    assert cp == hi * 64 + (bs[3] as int - 0x80);
    DivMod64(hi, bs[3] as int - 0x80);
    DivMod64(top, bs[2] as int - 0x80);
    DivMod64(bs[0] as int - 0xF0, bs[1] as int - 0x80);
    assert cp / 4096 == hi / 64;
    assert cp / 262144 == top / 64;
  }

  /** Every string survives a UTF-8 round trip. */
  lemma {:induction false} Utf8RoundTrip(s: string)
    ensures Utf8Decode(Utf8Encode(s)) == Some(s)
    decreases |s|
  {
    if s != [] {
      var bs := Utf8Encode(s);
      var head := EncodeChar(s[0]);
      DecodeEncodeChar(s[0], Utf8Encode(s[1..]));
      assert bs[|head|..] == Utf8Encode(s[1..]);
      Utf8RoundTrip(s[1..]);
      assert [s[0]] + s[1..] == s;
    }
  }

  /** Whatever decodes re-encodes to exactly the same bytes. */
  lemma {:induction false} Utf8DecodeThenEncode(bs: seq<byte>)
    requires Utf8Decode(bs).Some?
    ensures Utf8Encode(Utf8Decode(bs).value) == bs
    decreases |bs|
  {
    if bs != [] {
      var n := DecodeStep(bs);
      Utf8DecodeThenEncode(bs[n..]);
      EncodeDecodeLead(bs);
      EncodeCons(LeadCodePoint(bs) as char, Utf8Decode(bs[n..]).value);
      assert bs == bs[..n] + bs[n..];
    }
  }

  /** One step of a successful decode: the first character, then the rest decoded. */
  lemma DecodeStep(bs: seq<byte>) returns (n: nat)
    requires bs != [] && Utf8Decode(bs).Some?
    ensures n == LeadLength(bs) > 0 && Utf8Decode(bs[n..]).Some?
    ensures Utf8Decode(bs).value == [LeadCodePoint(bs) as char] + Utf8Decode(bs[n..]).value
  {
    n := LeadLength(bs);
  }

  lemma EncodeCons(c: char, rest: string)
    ensures Utf8Encode([c] + rest) == EncodeChar(c) + Utf8Encode(rest)
  {
    assert ([c] + rest)[1..] == rest;
  }

  // ---------------------------------------------------------------------
  // latin-1
  // ---------------------------------------------------------------------

  /** `bs.decode("latin-1")`: every byte is the code point of the same value. */
  function Latin1Decode(bs: seq<byte>): (s: string)
    ensures |s| == |bs| && forall i | 0 <= i < |bs| :: s[i] as int == bs[i] as int
  {
    seq(|bs|, i requires 0 <= i < |bs| => bs[i] as int as char)
  }

  /** `s.encode("latin-1")`: `None` where Python raises `UnicodeEncodeError`. */
  function Latin1Encode(s: string): (r: Option<seq<byte>>)
    ensures r.Some? <==> forall i | 0 <= i < |s| :: s[i] as int < 0x100
    ensures r.Some? ==> |r.value| == |s| && forall i | 0 <= i < |s| :: r.value[i] as int == s[i] as int
  {
    if forall i | 0 <= i < |s| :: s[i] as int < 0x100
    then Some(seq(|s|, i requires 0 <= i < |s| => s[i] as int as byte))
    else None
  }

  /** latin-1 is a bijection between bytes and the first 256 code points. */
  lemma Latin1RoundTrips(bs: seq<byte>, s: string)
    ensures Latin1Encode(Latin1Decode(bs)) == Some(bs)
    ensures Latin1Encode(s).Some? ==> Latin1Decode(Latin1Encode(s).value) == s
  {
    var d := Latin1Decode(bs);
    assert Latin1Encode(d).Some?;
    assert Latin1Encode(d).value == bs;
    if Latin1Encode(s).Some? {
      assert Latin1Decode(Latin1Encode(s).value) == s;
    }
  }

  // ---------------------------------------------------------------------
  // Text mode: universal newlines
  // ---------------------------------------------------------------------

  /** Reading in text mode turns "\r\n" and a lone "\r" into "\n". */
  function TranslateNewlines(s: string): (r: string)
    ensures '\r' !in r
    ensures |r| <= |s|
    decreases |s|
  {
    if s == [] then []
    else if s[0] == '\r' then
      if |s| > 1 && s[1] == '\n' then ['\n'] + TranslateNewlines(s[2..])
      else ['\n'] + TranslateNewlines(s[1..])
    else [s[0]] + TranslateNewlines(s[1..])
  }

  /** Text without a carriage return reads back unchanged; in particular translation is idempotent. */
  lemma {:induction false} TranslateNewlinesIdentity(s: string)
    requires '\r' !in s
    ensures TranslateNewlines(s) == s
    decreases |s|
  {
    if s != [] {
      assert s[0] != '\r' by { assert s[0] in s; }
      forall k | 0 <= k < |s| - 1 ensures s[1..][k] != '\r' {
        assert s[1..][k] == s[k + 1] && s[k + 1] in s;
      }
      TranslateNewlinesIdentity(s[1..]);
      assert s == [s[0]] + s[1..];
    }
  }

  // ---------------------------------------------------------------------
  // read_text_with_fallback and write_text
  // ---------------------------------------------------------------------

  datatype Decoded = Decoded(text: string, codec: Codec)

  /**
   * `read_text_with_fallback`: `data` is the file's bytes, `None` when the
   * file cannot be read (then both attempts fail and the result is `None`,
   * Python's `(None, None)`).
   */
  function ReadTextWithFallback(data: Option<seq<byte>>): (r: Option<Decoded>)
    ensures r.None? <==> data.None?
    ensures r.Some? ==> (r.value.codec == Utf8 <==> Utf8Decode(data.value).Some?)
    ensures r.Some? && r.value.codec == Utf8 ==>
      r.value.text == TranslateNewlines(Utf8Decode(data.value).value)
    ensures r.Some? && r.value.codec == Latin1 ==>
      r.value.text == TranslateNewlines(Latin1Decode(data.value))
  {
    match data
    case None => None
    case Some(bs) =>
      match Utf8Decode(bs)
      case Some(s) => Some(Decoded(TranslateNewlines(s), Utf8))
      case None => Some(Decoded(TranslateNewlines(Latin1Decode(bs)), Latin1))
  }

  /** The bytes `write_text(text, encoding=codec)` produces; `None` where encoding raises. */
  function EncodeText(text: string, codec: Codec): (r: Option<seq<byte>>)
    ensures codec == Utf8 ==> r.Some?
    ensures codec == Latin1 ==> (r.Some? <==> forall i | 0 <= i < |text| :: text[i] as int < 0x100)
  {
    match codec
    case Utf8 => Some(Utf8Encode(text))
    case Latin1 => Latin1Encode(text)
  }

  /** Text written as UTF-8 (with no carriage return) reads back as the same text and codec. */
  lemma ReadBackUtf8(text: string)
    requires '\r' !in text
    ensures ReadTextWithFallback(EncodeText(text, Utf8)) == Some(Decoded(text, Utf8))
  {
    Utf8RoundTrip(text);
    TranslateNewlinesIdentity(text);
  }
}
