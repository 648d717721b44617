/** The application/x-www-form-urlencoded serializer of section 5.2 of the
    WHATWG URL Standard (what URLSearchParams produces when it is turned into
    a string), and the parser of section 5.1 as its inverse. Strings become
    bytes by UTF-8; the serializer's output is ASCII. */
module FormUrlEncoded {
  import opened Wrappers
  import opened Utf8

  /* The percent-encode sets of section 1.3, on byte values. Each set is the
     one before it plus a few more code points. Editions of the standard
     differ on whether '^' enters at the path set or at the userinfo set;
     from the userinfo set on, and so in the form set, they agree. */

  /** C0 controls and everything above U+007E. */
  predicate InC0ControlSet(b: byte) {
    b <= 0x1F || b > 0x7E
  }

  /** Adds space, '"', '#', '<' and '>'. */
  predicate InQuerySet(b: byte) {
    InC0ControlSet(b) || b == 0x20 || b == 0x22 || b == 0x23 || b == 0x3C || b == 0x3E
  }

  /** Adds '?', '`', '{' and '}'. */
  predicate InPathSet(b: byte) {
    InQuerySet(b) || b == 0x3F || b == 0x60 || b == 0x7B || b == 0x7D
  }

  /** Adds '/', ':', ';', '=', '@', '[' to '^' and '|'. */
  predicate InUserinfoSet(b: byte) {
    InPathSet(b) || b == 0x2F || b == 0x3A || b == 0x3B || b == 0x3D || b == 0x40
    || (0x5B <= b <= 0x5E) || b == 0x7C
  }

  /** Adds '$' to '&', '+' and ','. */
  predicate InComponentSet(b: byte) {
    InUserinfoSet(b) || (0x24 <= b <= 0x26) || b == 0x2B || b == 0x2C
  }

  /** The application/x-www-form-urlencoded percent-encode set: adds '!',
      ''' to ')' and '~'. */
  predicate InFormSet(b: byte) {
    InComponentSet(b) || b == 0x21 || (0x27 <= b <= 0x29) || b == 0x7E
  }

  /** ASCII letters and digits, as bytes. */
  predicate IsAlphanumeric(b: byte) {
    (0x30 <= b <= 0x39) || (0x41 <= b <= 0x5A) || (0x61 <= b <= 0x7A)
  }

  /** The layered definition leaves exactly the ASCII alphanumerics and
      '*', '-', '.', '_' unencoded. */
  lemma FormSetComplement(b: byte)
    ensures !InFormSet(b) <==> IsAlphanumeric(b) || b == 0x2A || b == 0x2D || b == 0x2E || b == 0x5F
  {
  }

  /** The upper-case hexadecimal digit for n. */
  function HexDigit(n: int): (h: byte)
    requires 0 <= n < 16
    ensures IsHexDigit(h) && HexValue(h) == n
  {
    if n < 10 then 0x30 + n else 0x41 + (n - 10)
  }

  /** True for the bytes of 0-9, A-F and a-f. */
  predicate IsHexDigit(b: byte) {
    (0x30 <= b <= 0x39) || (0x41 <= b <= 0x46) || (0x61 <= b <= 0x66)
  }

  /** The value of a hexadecimal digit. */
  function HexValue(b: byte): (n: int)
    requires IsHexDigit(b)
    ensures 0 <= n < 16
  {
    if b <= 0x39 then b - 0x30 else if b <= 0x46 then b - 0x41 + 10 else b - 0x61 + 10
  }

  /** One byte after encoding, with space written as '+': a space becomes
      '+', a byte of the form set becomes '%' and two upper-case hex digits,
      any other byte stands for itself. */
  function EncodeByte(b: byte): (r: seq<byte>)
  {
    if b == 0x20 then [0x2B]
    else if InFormSet(b) then [0x25, HexDigit(b / 16), HexDigit(b % 16)]
    else [b]
  }

  /** Percent-encodes a byte sequence, byte by byte. */
  function PercentEncode(bs: seq<byte>): seq<byte>
  {
    if |bs| == 0 then [] else EncodeByte(bs[0]) + PercentEncode(bs[1..])
  }

  /** A name or a value as it appears in the serialized form. */
  function EncodeComponent(s: string): seq<byte>
  {
    PercentEncode(Utf8.Encode(s))
  }

  /** One name-value tuple as "name=value". */
  function EncodePair(p: (string, string)): seq<byte>
  {
    EncodeComponent(p.0) + [0x3D] + EncodeComponent(p.1)
  }

  /** The tuples in order, joined by '&'. */
  function SerializeBytes(pairs: seq<(string, string)>): seq<byte>
  {
    if |pairs| == 0 then []
    else if |pairs| == 1 then EncodePair(pairs[0])
    else EncodePair(pairs[0]) + [0x26] + SerializeBytes(pairs[1..])
  }

  /** Each byte read as the code point of the same value. */
  function IsomorphicDecode(bs: seq<byte>): string
  {
    seq(|bs|, k requires 0 <= k < |bs| => bs[k] as char)
  }

  /** The serializer of section 5.2. */
  function Serialize(pairs: seq<(string, string)>): string
  {
    IsomorphicDecode(SerializeBytes(pairs))
  }

  /* ---------- The parser of section 5.1 ---------- */

  /** Replaces every '+' with a space. */
  function PlusToSpace(bs: seq<byte>): (r: seq<byte>)
    ensures |r| == |bs|
    ensures forall k :: 0 <= k < |r| ==> r[k] != 0x2B
  {
    seq(|bs|, k requires 0 <= k < |bs| => if bs[k] == 0x2B then 0x20 else bs[k])
  }

  /** Percent-decoding of section 1.3: "%XX" with two hex digits becomes the
      byte XX, every other byte (a lone '%' included) stands for itself. */
  function PercentDecode(bs: seq<byte>): seq<byte>
    decreases |bs|
  {
    if |bs| == 0 then []
    else if bs[0] == 0x25 && |bs| >= 3 && IsHexDigit(bs[1]) && IsHexDigit(bs[2]) then
      [HexValue(bs[1]) * 16 + HexValue(bs[2])] + PercentDecode(bs[3..])
    else
      [bs[0]] + PercentDecode(bs[1..])
  }

  /** A serialized name or value read back: '+' to space, percent-decode,
      then UTF-8 decode. */
  function DecodeComponent(bs: seq<byte>): Option<string>
  {
    Utf8.Decode(PercentDecode(PlusToSpace(bs)))
  }

  /** The position of the first x in bs, or |bs| when there is none. */
  function IndexOf(bs: seq<byte>, x: byte): (i: nat)
    ensures i <= |bs|
    ensures i < |bs| ==> bs[i] == x
    ensures forall k :: 0 <= k < i ==> bs[k] != x
  {
    if |bs| == 0 then 0
    else if bs[0] == x then 0
    else 1 + IndexOf(bs[1..], x)
  }

  /** A non-empty sequence between '&'s: the name runs up to the first '=',
      the value is what follows it (empty when there is no '='). */
  function ParseSegment(seg: seq<byte>): Option<(string, string)>
  {
    var i := IndexOf(seg, 0x3D);
    var name := seg[..i];
    var value := if i < |seg| then seg[i + 1..] else [];
    match (DecodeComponent(name), DecodeComponent(value))
    case (Some(n), Some(v)) => Some((n, v))
    case _ => None
  }

  /** Puts the tuple of one '&'-delimited sequence in front of the parse of
      what follows it; an empty sequence contributes nothing. */
  function Prepend(seg: seq<byte>, tail: Option<seq<(string, string)>>): Option<seq<(string, string)>>
  {
    match tail
    case None => None
    case Some(t) =>
      if seg == [] then Some(t)
      else match ParseSegment(seg)
        case None => None
        case Some(p) => Some([p] + t)
  }

  /** Splits on '&', skips empty sequences and parses the others in order. */
  function ParseBytes(bs: seq<byte>): Option<seq<(string, string)>>
    decreases |bs|
  {
    if |bs| == 0 then Some([])
    else
      var i := IndexOf(bs, 0x26);
      Prepend(bs[..i], if i < |bs| then ParseBytes(bs[i + 1..]) else Some([]))
  }

  /** The parser of section 5.1, on the UTF-8 encoding of the input. */
  function Parse(input: string): Option<seq<(string, string)>>
  {
    ParseBytes(Utf8.Encode(input))
  }

  /* ---------- Round trip ---------- */

  /** Bytes that the encoder writes and that carry no structure for the
      parser: ASCII, never '&' and never '='. */
  predicate IsPlain(b: byte) {
    b < 0x80 && b != 0x26 && b != 0x3D
  }

  /** True when every byte of bs is plain. */
  predicate AllPlain(bs: seq<byte>) {
    forall k :: 0 <= k < |bs| ==> IsPlain(bs[k])
  }

  /** The encoder writes only plain bytes. */
  lemma {:induction false} PercentEncodePlain(bs: seq<byte>)
    ensures AllPlain(PercentEncode(bs))
  {
    if |bs| > 0 {
      PercentEncodePlain(bs[1..]);
      var e := EncodeByte(bs[0]);
      assert AllPlain(e);
      assert PercentEncode(bs) == e + PercentEncode(bs[1..]);
    }
  }

  /** Undoing one encoded byte: '+' back to space and percent-decoding give
      the original byte, whatever follows. */
  lemma DecodeEncodeByte(b: byte, rest: seq<byte>)
    ensures PercentDecode(PlusToSpace(EncodeByte(b)) + rest) == [b] + PercentDecode(rest)
  {
    var e := PlusToSpace(EncodeByte(b)) + rest;
    if b != 0x20 && InFormSet(b) {
      assert e[0] == 0x25 && e[1] == HexDigit(b / 16) && e[2] == HexDigit(b % 16);
      assert e[3..] == rest;
    } else {
      assert e[1..] == rest;
    }
  }

  /** Decoding a percent-encoded byte sequence gives it back. */
  lemma {:induction false} PercentDecodeEncode(bs: seq<byte>)
    ensures PercentDecode(PlusToSpace(PercentEncode(bs))) == bs
  {
    if |bs| > 0 {
      var e := EncodeByte(bs[0]);
      var tail := PercentEncode(bs[1..]);
      assert PlusToSpace(e + tail) == PlusToSpace(e) + PlusToSpace(tail);
      DecodeEncodeByte(bs[0], PlusToSpace(tail));
      PercentDecodeEncode(bs[1..]);
      assert [bs[0]] + bs[1..] == bs;
    }
  }

  /** Each name and value reads back as itself, and its encoding is plain. */
  lemma DecodeEncodeComponent(s: string)
    ensures DecodeComponent(EncodeComponent(s)) == Some(s)
    ensures AllPlain(EncodeComponent(s))
  {
    PercentDecodeEncode(Utf8.Encode(s));
    Utf8.DecodeEncode(s);
    PercentEncodePlain(Utf8.Encode(s));
  }

  /** The first x after a prefix that has none is right after the prefix. */
  lemma IndexOfAfter(a: seq<byte>, x: byte, b: seq<byte>)
    requires forall k :: 0 <= k < |a| ==> a[k] != x
    ensures IndexOf(a + [x] + b, x) == |a|
    decreases |a|
  {
    if |a| > 0 {
      assert (a + [x] + b)[1..] == a[1..] + [x] + b;
      IndexOfAfter(a[1..], x, b);
    }
  }

  /** When x does not occur, IndexOf runs to the end. */
  lemma IndexOfAbsent(a: seq<byte>, x: byte)
    requires forall k :: 0 <= k < |a| ==> a[k] != x
    ensures IndexOf(a, x) == |a|
    decreases |a|
  {
    if |a| > 0 {
      IndexOfAbsent(a[1..], x);
    }
  }

  /** An encoded tuple is non-empty, has no '&', and parses back to the
      tuple. */
  lemma ParseEncodePair(p: (string, string))
    ensures |EncodePair(p)| > 0
    ensures forall k :: 0 <= k < |EncodePair(p)| ==> EncodePair(p)[k] != 0x26
    ensures ParseSegment(EncodePair(p)) == Some(p)
  {
    var n := EncodeComponent(p.0);
    var v := EncodeComponent(p.1);
    DecodeEncodeComponent(p.0);
    DecodeEncodeComponent(p.1);
    var e := EncodePair(p);
    assert e == n + [0x3D] + v;
    IndexOfAfter(n, 0x3D, v);
    assert e[..|n|] == n;
    assert e[|n| + 1..] == v;
    assert forall k :: 0 <= k < |e| ==> e[k] != 0x26 by {
      forall k | 0 <= k < |e|
        ensures e[k] != 0x26
      {
        if k < |n| { assert e[k] == n[k]; }
        else if k > |n| { assert e[k] == v[k - |n| - 1]; }
      }
    }
  }

  /** A segment followed by '&' and more input: the segment's tuple comes
      first, then whatever the rest parses to. */
  lemma ParseBytesCons(e: seq<byte>, p: (string, string), tail: seq<byte>)
    requires |e| > 0 && ParseSegment(e) == Some(p)
    requires forall k :: 0 <= k < |e| ==> e[k] != 0x26
    ensures ParseBytes(e + [0x26] + tail)
         == if ParseBytes(tail).Some? then Some([p] + ParseBytes(tail).value) else None
  {
    var bs := e + [0x26] + tail;
    IndexOfAfter(e, 0x26, tail);
    assert bs[..|e|] == e;
    assert bs[|e| + 1..] == tail;
  }

  /** A lone segment parses to its one tuple. */
  lemma ParseBytesSingle(e: seq<byte>, p: (string, string))
    requires |e| > 0 && ParseSegment(e) == Some(p)
    requires forall k :: 0 <= k < |e| ==> e[k] != 0x26
    ensures ParseBytes(e) == Some([p])
  {
    IndexOfAbsent(e, 0x26);
    var seg := e[..|e|];
    assert seg == e;
    var none: seq<(string, string)> := [];
    assert [p] + none == [p];
    assert Prepend(seg, Some(none)) == Some([p] + none);
  }

  /** Round trip at the byte level. */
  lemma {:induction false} ParseSerializeBytes(pairs: seq<(string, string)>)
    ensures ParseBytes(SerializeBytes(pairs)) == Some(pairs)
  {
    if |pairs| == 1 {
      var e := EncodePair(pairs[0]);
      assert SerializeBytes(pairs) == e;
      ParseEncodePair(pairs[0]);
      ParseBytesSingle(e, pairs[0]);
      assert [pairs[0]] == pairs;
    } else if |pairs| > 1 {
      var e := EncodePair(pairs[0]);
      var tail := SerializeBytes(pairs[1..]);
      assert SerializeBytes(pairs) == e + [0x26] + tail;
      ParseEncodePair(pairs[0]);
      ParseSerializeBytes(pairs[1..]);
      ParseBytesCons(e, pairs[0], tail);
      assert [pairs[0]] + pairs[1..] == pairs;
    }
  }

  /** True when every byte of bs is below 0x80. */
  predicate AllAscii(bs: seq<byte>) {
    forall k :: 0 <= k < |bs| ==> bs[k] < 0x80
  }

  /** The serialized bytes are ASCII. */
  lemma {:induction false} SerializeBytesAscii(pairs: seq<(string, string)>)
    ensures AllAscii(SerializeBytes(pairs))
  {
    if |pairs| > 0 {
      DecodeEncodeComponent(pairs[0].0);
      DecodeEncodeComponent(pairs[0].1);
      assert AllAscii(EncodePair(pairs[0]));
      SerializeBytesAscii(pairs[1..]);
    }
  }

  /** On ASCII bytes, UTF-8 encoding undoes the isomorphic decode: the
      parser's first step gets back exactly the bytes the serializer wrote. */
  lemma EncodeIsomorphicDecode(bs: seq<byte>)
    requires AllAscii(bs)
    ensures Utf8.Encode(IsomorphicDecode(bs)) == bs
  {
    var s := IsomorphicDecode(bs);
    Utf8.EncodeAscii(s);
  }

  /** The parser reads back every list of tuples the serializer writes, in
      the same order, empty names and values included. */
  lemma ParseSerialize(pairs: seq<(string, string)>)
    ensures Parse(Serialize(pairs)) == Some(pairs)
  {
    var bs := SerializeBytes(pairs);
    SerializeBytesAscii(pairs);
    EncodeIsomorphicDecode(bs);
    ParseSerializeBytes(pairs);
  }

  /** The serialized form is empty exactly when there are no tuples. */
  lemma SerializeEmptyIff(pairs: seq<(string, string)>)
    ensures Serialize(pairs) == "" <==> |pairs| == 0
  {
    if |pairs| > 0 {
      ParseEncodePair(pairs[0]);
      assert |SerializeBytes(pairs)| >= |EncodePair(pairs[0])|;
    }
  }

  /** A space is written as '+' and letters stay as they are. */
  lemma EncodeComponentExample()
    ensures EncodeComponent("x y") == [0x78, 0x2B, 0x79]
  {
    var s := "x y";
    Utf8.EncodeAscii(s);
    assert Utf8.Encode(s) == [0x78, 0x20, 0x79];
    assert PercentEncode([0x79]) == [0x79];
    assert PercentEncode([0x20, 0x79]) == [0x2B, 0x79];
  }

  /** The tuples are joined by '&', each as "name=value". */
  lemma SerializeExample()
    ensures Serialize([("a", "1"), ("b", "x y")]) == "a=1&b=x+y"
  {
    var pairs := [("a", "1"), ("b", "x y")];
    EncodeComponentExample();
    assert EncodeComponent("a") == [0x61];
    assert EncodeComponent("1") == [0x31];
    assert EncodeComponent("b") == [0x62];
    var bs: seq<byte> := [0x61, 0x3D, 0x31, 0x26, 0x62, 0x3D, 0x78, 0x2B, 0x79];
    assert SerializeBytes(pairs) == bs;
    assert forall k :: 0 <= k < |bs| ==> IsomorphicDecode(bs)[k] == "a=1&b=x+y"[k];
  }

  /** A non-ASCII character is percent-encoded byte by byte after UTF-8
      encoding, and '+' and '~' are escaped too. */
  lemma EncodeNonAsciiExample()
    ensures EncodeComponent("\U{e9}+~") == [0x25, 0x43, 0x33, 0x25, 0x41, 0x39, 0x25, 0x32, 0x42, 0x25, 0x37, 0x45]
  {
    var s := "\U{e9}+~";
    var u: seq<byte> := [0xC3, 0xA9, 0x2B, 0x7E];
    assert Utf8.EncodeChar(s[0]) == [0xC3, 0xA9];
    Utf8.EncodeAscii(s[1..]);
    assert Utf8.Encode(s[1..]) == [0x2B, 0x7E];
    assert Utf8.Encode(s) == u;
    assert PercentEncode(u[3..]) == [0x25, 0x37, 0x45];
    assert u[2..][1..] == u[3..];
    assert PercentEncode(u[2..]) == [0x25, 0x32, 0x42, 0x25, 0x37, 0x45];
    assert u[1..][1..] == u[2..];
    assert PercentEncode(u[1..]) == [0x25, 0x41, 0x39, 0x25, 0x32, 0x42, 0x25, 0x37, 0x45];
  }
}
