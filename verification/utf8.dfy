/** UTF-8 encoding of Unicode scalar values (the encoding step that precedes
    percent-encoding in the WHATWG URL Standard), and a strict decoder that
    inverts it. */
module Utf8 {
  import opened Wrappers

  /** An octet. */
  type byte = b: int | 0 <= b < 256

  /** True for the bytes 0x80..0xBF that continue a multi-byte sequence. */
  predicate IsContinuation(b: byte) {
    0x80 <= b < 0xC0
  }

  /** The one to four bytes that encode c: the code point is split into
      6-bit groups, most significant first, under the lead-byte marker. */
  function EncodeChar(c: char): (r: seq<byte>)
    ensures 1 <= |r| <= 4
    ensures (c as int < 0x80) <==> |r| == 1
    ensures |r| == 1 ==> r[0] == c as int
    ensures |r| > 1 ==> r[0] >= 0xC2 && forall k :: 1 <= k < |r| ==> IsContinuation(r[k])
  {
    var cp := c as int;
    var q1 := cp / 64;
    var q2 := q1 / 64;
    var q3 := q2 / 64;
    if cp < 0x80 then [cp]
    else if cp < 0x800 then [0xC0 + q1, 0x80 + cp % 64]
    else if cp < 0x1_0000 then [0xE0 + q2, 0x80 + q1 % 64, 0x80 + cp % 64]
    else [0xF0 + q3, 0x80 + q2 % 64, 0x80 + q1 % 64, 0x80 + cp % 64]
  }

  /** The UTF-8 encoding of a whole string, character by character. */
  function Encode(s: string): seq<byte>
  {
    if |s| == 0 then [] else EncodeChar(s[0]) + Encode(s[1..])
  }

  /** Decodes the scalar value at the front of bs and says how many bytes it
      took; None for an ill-formed sequence (a stray continuation byte, a
      truncated sequence, an overlong form, a surrogate or a value past
      U+10FFFF). */
  function DecodeFirst(bs: seq<byte>): (r: Option<(char, nat)>)
    requires |bs| > 0
    ensures r.Some? ==> 1 <= r.value.1 <= |bs| && r.value.1 <= 4
  {
    var b0 := bs[0] as int;
    if b0 < 0x80 then
      Some((b0 as char, 1))
    else if 0xC2 <= b0 < 0xE0 then
      if |bs| < 2 || !IsContinuation(bs[1]) then None
      else Some((((b0 - 0xC0) * 64 + (bs[1] as int - 0x80)) as char, 2))
    else if 0xE0 <= b0 < 0xF0 then
      if |bs| < 3 || !IsContinuation(bs[1]) || !IsContinuation(bs[2]) then None
      else
        var cp := ((b0 - 0xE0) * 64 + (bs[1] as int - 0x80)) * 64 + (bs[2] as int - 0x80);
        if cp < 0x800 || 0xD800 <= cp < 0xE000 then None else Some((cp as char, 3))
    else if 0xF0 <= b0 < 0xF5 then
      if |bs| < 4 || !IsContinuation(bs[1]) || !IsContinuation(bs[2]) || !IsContinuation(bs[3]) then None
      else
        var cp := (((b0 - 0xF0) * 64 + (bs[1] as int - 0x80)) * 64 + (bs[2] as int - 0x80)) * 64 + (bs[3] as int - 0x80);
        if cp < 0x1_0000 || cp >= 0x11_0000 then None else Some((cp as char, 4))
    else
      None
  }

  /** Decodes a whole byte sequence, failing on the first ill-formed one. */
  function Decode(bs: seq<byte>): Option<string>
    decreases |bs|
  {
    if |bs| == 0 then Some("")
    else match DecodeFirst(bs)
      case None => None
      case Some((c, n)) =>
        match Decode(bs[n..])
        case None => None
        case Some(s) => Some([c] + s)
  }

  /** The decoder reads back exactly the character the encoder wrote, and
      stops where that character's bytes end. */
  lemma DecodeFirstEncodeChar(c: char, rest: seq<byte>)
    ensures DecodeFirst(EncodeChar(c) + rest) == Some((c, |EncodeChar(c)|))
  {
    var cp := c as int;
    var bs := EncodeChar(c) + rest;
    var q1 := cp / 64;
    var q2 := q1 / 64;
    if 0x80 <= cp < 0x800 {
      assert (bs[0] as int - 0xC0) * 64 + (bs[1] as int - 0x80) == cp;
    } else if 0x800 <= cp < 0x1_0000 {
      assert (bs[0] as int - 0xE0) * 64 + (bs[1] as int - 0x80) == q1;
      assert ((bs[0] as int - 0xE0) * 64 + (bs[1] as int - 0x80)) * 64 + (bs[2] as int - 0x80) == cp;
    } else if cp >= 0x1_0000 {
      assert (bs[0] as int - 0xF0) * 64 + (bs[1] as int - 0x80) == q2;
      assert ((bs[0] as int - 0xF0) * 64 + (bs[1] as int - 0x80)) * 64 + (bs[2] as int - 0x80) == q1;
      assert (((bs[0] as int - 0xF0) * 64 + (bs[1] as int - 0x80)) * 64 + (bs[2] as int - 0x80)) * 64 + (bs[3] as int - 0x80) == cp;
    }
  }

  /** Round trip: decoding the encoding of any string gives the string back. */
  lemma {:induction false} DecodeEncode(s: string)
    ensures Decode(Encode(s)) == Some(s)
  {
    if |s| > 0 {
      var e := EncodeChar(s[0]);
      DecodeFirstEncodeChar(s[0], Encode(s[1..]));
      assert (e + Encode(s[1..]))[|e|..] == Encode(s[1..]);
      DecodeEncode(s[1..]);
      assert [s[0]] + s[1..] == s;
    }
  }

  /** The other direction: the decoder accepts only what the encoder can
      write, so a byte sequence that decodes is the encoding of its result. */
  lemma {:induction false} EncodeDecode(bs: seq<byte>)
    requires Decode(bs).Some?
    ensures Encode(Decode(bs).value) == bs
    decreases |bs|
  {
    if |bs| > 0 {
      var (c, n) := DecodeFirst(bs).value;
      EncodeCharOfDecodeFirst(bs);
      EncodeDecode(bs[n..]);
      assert Decode(bs).value == [c] + Decode(bs[n..]).value;
      assert ([c] + Decode(bs[n..]).value)[1..] == Decode(bs[n..]).value;
      assert bs == bs[..n] + bs[n..];
    }
  }

  /** The bytes DecodeFirst consumed are the encoding of the character it
      returned. */
  lemma EncodeCharOfDecodeFirst(bs: seq<byte>)
    requires |bs| > 0 && DecodeFirst(bs).Some?
    ensures EncodeChar(DecodeFirst(bs).value.0) == bs[..DecodeFirst(bs).value.1]
  {
    var (c, n) := DecodeFirst(bs).value;
    var cp := c as int;
    var e := EncodeChar(c);
    if n == 2 {
      assert cp / 64 == bs[0] - 0xC0;
      assert e == bs[..2];
    } else if n == 3 {
      assert cp / 64 == (bs[0] as int - 0xE0) * 64 + (bs[1] as int - 0x80);
      assert cp / 64 / 64 == bs[0] - 0xE0;
      assert e == bs[..3];
    } else if n == 4 {
      assert cp / 64 == ((bs[0] as int - 0xF0) * 64 + (bs[1] as int - 0x80)) * 64 + (bs[2] as int - 0x80);
      assert cp / 64 / 64 == (bs[0] as int - 0xF0) * 64 + (bs[1] as int - 0x80);
      assert cp / 64 / 64 / 64 == bs[0] - 0xF0;
      assert e == bs[..4];
    }
  }

  /** A string of ASCII characters encodes to its own code points, one byte
      each. */
  lemma {:induction false} EncodeAscii(s: string)
    requires forall k :: 0 <= k < |s| ==> s[k] as int < 0x80
    ensures |Encode(s)| == |s|
    ensures forall k :: 0 <= k < |s| ==> Encode(s)[k] == s[k] as int
  {
    if |s| > 0 {
      EncodeAscii(s[1..]);
    }
  }
}
