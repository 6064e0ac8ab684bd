/** A reference encoder, which strutils.h does not have, used to say what its decoder and
    validator accept: exactly the concatenations of n-byte encodings of values that fit in
    n bytes, with no check that n is the shortest length or that the value is a Unicode
    scalar value. */
module Utf8Encoding {
  import opened Utf8Char
  import opened Utf8Walk

  /** The n-byte encoding of the value cp, which must fit in n bytes: the leading byte's
      marker bits and payload, then six bits per continuation byte, most significant first. */
  function EncodeChar(cp: nat, n: nat): (r: seq<Byte>)
    requires 1 <= n <= 4 && cp < Limit(n)
    ensures |r| == n
  {
    if n == 1 then [cp]
    else if n == 2 then [0xC0 + cp / 0x40, 0x80 + cp % 0x40]
    else if n == 3 then [0xE0 + cp / 0x1000, 0x80 + cp / 0x40 % 0x40, 0x80 + cp % 0x40]
    else [0xF0 + cp / 0x4_0000, 0x80 + cp / 0x1000 % 0x40, 0x80 + cp / 0x40 % 0x40, 0x80 + cp % 0x40]
  }

  /** An encoded character: a value and the number of bytes it is written in. */
  datatype Encoded = Encoded(point: nat, width: nat)

  /** A value that fits its width, and is not the 0 that a 1-byte encoding would turn into
      the terminator. */
  predicate Encodable(c: Encoded)
  {
    1 <= c.width <= 4 && c.point < Limit(c.width) && (c.width == 1 ==> c.point != 0)
  }

  predicate AllEncodable(cs: seq<Encoded>)
  {
    forall k :: 0 <= k < |cs| ==> Encodable(cs[k])
  }

  /** The bytes of the encoded characters, one after the other. */
  function Flatten(cs: seq<Encoded>): (r: seq<Byte>)
    requires AllEncodable(cs)
  {
    if |cs| == 0 then [] else EncodeChar(cs[0].point, cs[0].width) + Flatten(cs[1..])
  }

  /** The values of the encoded characters. */
  function Points(cs: seq<Encoded>): (r: seq<nat>)
    ensures |r| == |cs| && forall k :: 0 <= k < |cs| ==> r[k] == cs[k].point
  {
    seq(|cs|, k requires 0 <= k < |cs| => cs[k].point)
  }

  /** Decoding the n-byte encoding of a value that fits gives the value back; the leading
      byte declares n bytes and the others are continuation bytes. */
  lemma DecodeEncodeChar(cp: nat, n: nat)
    requires 1 <= n <= 4 && cp < Limit(n)
    ensures CharLen(EncodeChar(cp, n)[0]) == Some(n)
    ensures forall j :: 1 <= j < n ==> IsContinuation(EncodeChar(cp, n)[j])
    ensures ParseChar(EncodeChar(cp, n), n) == Some(cp)
    ensures NulFree(EncodeChar(cp, n)) <==> (n > 1 || cp != 0)
  {
    var e := EncodeChar(cp, n);
    if n == 2 {
      DecodeEncode2(cp);
    } else if n == 3 {
      DecodeEncode3(cp);
    } else if n == 4 {
      DecodeEncode4(cp);
    }
    if n > 1 {
      assert forall j :: 0 <= j < n ==> e[j] >= 0x80;
    }
  }

  lemma DecodeEncode2(cp: nat)
    requires cp < 0x800
    ensures CharLen(EncodeChar(cp, 2)[0]) == Some(2) && IsContinuation(EncodeChar(cp, 2)[1])
    ensures ParseChar(EncodeChar(cp, 2), 2) == Some(cp)
  {
    assert cp == (cp / 0x40) * 0x40 + cp % 0x40;
  }

  lemma DecodeEncode3(cp: nat)
    requires cp < 0x1_0000
    ensures CharLen(EncodeChar(cp, 3)[0]) == Some(3)
    ensures IsContinuation(EncodeChar(cp, 3)[1]) && IsContinuation(EncodeChar(cp, 3)[2])
    ensures ParseChar(EncodeChar(cp, 3), 3) == Some(cp)
  {
    var c: int, q1: int := cp % 0x40, cp / 0x40;
    var b: int, a: int := q1 % 0x40, q1 / 0x40;
    SplitAt12(cp, a, b * 0x40 + c);
  }

  lemma DecodeEncode4(cp: nat)
    requires cp < 0x20_0000
    ensures CharLen(EncodeChar(cp, 4)[0]) == Some(4)
    ensures IsContinuation(EncodeChar(cp, 4)[1]) && IsContinuation(EncodeChar(cp, 4)[2])
    ensures IsContinuation(EncodeChar(cp, 4)[3])
    ensures ParseChar(EncodeChar(cp, 4), 4) == Some(cp)
  {
    var d: int, q1: int := cp % 0x40, cp / 0x40;
    var c: int, q2: int := q1 % 0x40, q1 / 0x40;
    var b: int, a: int := q2 % 0x40, q2 / 0x40;
    SplitAt12(cp, q2, c * 0x40 + d);
    SplitAt18(cp, a, b * 0x1000 + c * 0x40 + d);
    assert EncodeChar(cp, 4) == [0xF0 + a, 0x80 + b, 0x80 + c, 0x80 + d];
    ParseFields4(a, b, c, d);
  }

  /** The 4-byte character with payload fields a, b, c and d. */
  lemma ParseFields4(a: int, b: int, c: int, d: int)
    requires 0 <= a < 0x08 && 0 <= b < 0x40 && 0 <= c < 0x40 && 0 <= d < 0x40
    ensures CharLen(0xF0 + a) == Some(4)
    ensures IsContinuation(0x80 + b) && IsContinuation(0x80 + c) && IsContinuation(0x80 + d)
    ensures ParseChar([0xF0 + a, 0x80 + b, 0x80 + c, 0x80 + d], 4)
            == Some(a * 0x4_0000 + b * 0x1000 + c * 0x40 + d)
  {
    var e: seq<Byte> := [0xF0 + a, 0x80 + b, 0x80 + c, 0x80 + d];
    SplitAt6(0x80 + b, 2, b);
    SplitAt6(0x80 + c, 2, c);
    SplitAt6(0x80 + d, 2, d);
    assert (0xF0 + a) % 0x08 == a;
  }

  /** Splitting a value at bit 6, 12 or 18: the quotient and remainder of the division
      are the high and low fields it was built from. */
  lemma SplitAt6(x: int, q: int, r: int)
    requires 0 <= r < 0x40 && x == q * 0x40 + r
    ensures x / 0x40 == q && x % 0x40 == r
  {
  }

  lemma SplitAt12(x: int, q: int, r: int)
    requires 0 <= r < 0x1000 && x == q * 0x1000 + r
    ensures x / 0x1000 == q && x % 0x1000 == r
  {
  }

  lemma SplitAt18(x: int, q: int, r: int)
    requires 0 <= r < 0x4_0000 && x == q * 0x4_0000 + r
    ensures x / 0x4_0000 == q && x % 0x4_0000 == r
  {
  }

  /** Encoding the value decoded from a complete n-byte character, in n bytes, gives back
      its bytes. */
  lemma EncodeDecodeChar(t: seq<Byte>, n: nat)
    requires CharLen(At(t, 0)) == Some(n) && n <= |t|
    requires forall j :: 1 <= j < n ==> IsContinuation(t[j])
    ensures ParseChar(t, n).value < Limit(n)
    ensures EncodeChar(ParseChar(t, n).value, n) == t[..n]
  {
    if n == 2 {
      EncodeDecode2(t);
    } else if n == 3 {
      EncodeDecode3(t);
    } else if n == 4 {
      EncodeDecode4(t);
    }
  }

  lemma EncodeDecode2(t: seq<Byte>)
    requires 2 <= |t| && CharLen(t[0]) == Some(2) && IsContinuation(t[1])
    ensures ParseChar(t, 2).value < 0x800
    ensures EncodeChar(ParseChar(t, 2).value, 2) == t[..2]
  {
    var cp := ParseChar(t, 2).value;
    var a: int, b: int := t[0] % 0x20, t[1] % 0x40;
    SplitAt6(cp, a, b);
  }

  lemma EncodeDecode3(t: seq<Byte>)
    requires 3 <= |t| && CharLen(t[0]) == Some(3) && IsContinuation(t[1]) && IsContinuation(t[2])
    ensures ParseChar(t, 3).value < 0x1_0000
    ensures EncodeChar(ParseChar(t, 3).value, 3) == t[..3]
  {
    var cp := ParseChar(t, 3).value;
    var a: int, b: int, c: int := t[0] % 0x10, t[1] % 0x40, t[2] % 0x40;
    SplitAt12(cp, a, b * 0x40 + c);
    SplitAt6(cp, a * 0x40 + b, c);
    SplitAt6(a * 0x40 + b, a, b);
  }

  lemma EncodeDecode4(t: seq<Byte>)
    requires 4 <= |t| && CharLen(t[0]) == Some(4)
    requires IsContinuation(t[1]) && IsContinuation(t[2]) && IsContinuation(t[3])
    ensures ParseChar(t, 4).value < 0x20_0000
    ensures EncodeChar(ParseChar(t, 4).value, 4) == t[..4]
  {
    var cp := ParseChar(t, 4).value;
    var a: int, b: int, c: int, d: int := t[0] % 0x08, t[1] % 0x40, t[2] % 0x40, t[3] % 0x40;
    SplitAt18(cp, a, b * 0x1000 + c * 0x40 + d);
    SplitAt12(cp, a * 0x40 + b, c * 0x40 + d);
    SplitAt6(a * 0x40 + b, a, b);
    SplitAt6(cp, a * 0x1000 + b * 0x40 + c, d);
    SplitAt6(a * 0x1000 + b * 0x40 + c, a * 0x40 + b, c);
  }

  /** The concatenation of encodable characters is valid, well framed and free of 0
      bytes, and decodes to their values. */
  lemma {:induction false} FlattenDecodes(cs: seq<Encoded>)
    requires AllEncodable(cs)
    ensures NulFree(Flatten(cs)) && ValidUtf8(Flatten(cs))
    ensures Decoded(Flatten(cs)) == Points(cs)
    ensures Framed(Flatten(cs)) && !Malformed(Flatten(cs))
  {
    if |cs| > 0 {
      var c := cs[0];
      var e := EncodeChar(c.point, c.width);
      var t := Flatten(cs[1..]);
      var s := e + t;
      assert s == Flatten(cs);
      FlattenDecodes(cs[1..]);
      DecodeEncodeChar(c.point, c.width);
      ScanPrepend(e, t, c.width);
      NulFreeConcat(e, t);
      assert Points(cs) == [c.point] + Points(cs[1..]);
    }
  }

  /** The front character of a valid string: a complete, encodable character whose
      encoding the string starts with, followed by a valid rest. */
  lemma FrontCharacter(s: seq<Byte>)
    requires NulFree(s) && ValidUtf8(s) && |s| > 0
    ensures CharLen(s[0]).Some? && CharLen(s[0]).value <= |s|
    ensures NulFree(s[CharLen(s[0]).value..]) && ValidUtf8(s[CharLen(s[0]).value..])
    ensures Encodable(Encoded(ParseChar(s, CharLen(s[0]).value).value, CharLen(s[0]).value))
    ensures s == EncodeChar(ParseChar(s, CharLen(s[0]).value).value, CharLen(s[0]).value)
                 + s[CharLen(s[0]).value..]
  {
    var n := CharLen(s[0]).value;
    assert forall j :: 1 <= j < n ==> IsContinuation(s[j]);
    FrontEncoding(s, n);
  }

  /** A complete n-byte character at the front of s, other than the terminator, is the
      encoding of an encodable character. */
  lemma FrontEncoding(s: seq<Byte>, n: nat)
    requires 0 < |s| && n <= |s| && CharLen(s[0]) == Some(n) && s[0] != 0
    requires forall j :: 1 <= j < n ==> IsContinuation(s[j])
    ensures Encodable(Encoded(ParseChar(s, n).value, n))
    ensures s == EncodeChar(ParseChar(s, n).value, n) + s[n..]
  {
    var e := EncodeChar(ParseChar(s, n).value, n);
    EncodeDecodeChar(s, n);
    assert e == s[..n];
    assert s == e + s[n..];
  }

  /** Flatten of a sequence with a first character. */
  lemma FlattenCons(c: Encoded, rest: seq<Encoded>)
    requires Encodable(c) && AllEncodable(rest)
    ensures AllEncodable([c] + rest)
    ensures Flatten([c] + rest) == EncodeChar(c.point, c.width) + Flatten(rest)
  {
    assert ([c] + rest)[1..] == rest;
  }

  /** The characters of a valid string, each with the value it decodes to and the width
      its leading byte declares. */
  function Split(s: seq<Byte>): (cs: seq<Encoded>)
    requires NulFree(s) && ValidUtf8(s)
    ensures AllEncodable(cs) && Flatten(cs) == s
    decreases |s|
  {
    if |s| == 0 then []
    else
      FrontCharacter(s);
      var n := CharLen(s[0]).value;
      var c := Encoded(ParseChar(s, n).value, n);
      var rest := Split(s[n..]);
      FlattenCons(c, rest);
      [c] + rest
  }

  /** strutils.h's validity is exactly being a concatenation of encodable characters:
      every width a value fits in is accepted, so overlong forms, surrogates and values
      above U+10FFFF are too. */
  lemma ValidIffConcatenation(s: seq<Byte>)
    requires NulFree(s)
    ensures ValidUtf8(s) <==> exists cs :: AllEncodable(cs) && Flatten(cs) == s
  {
    if ValidUtf8(s) {
      var cs := Split(s);
      assert AllEncodable(cs) && Flatten(cs) == s;
    }
    forall cs | AllEncodable(cs) && Flatten(cs) == s
      ensures ValidUtf8(s)
    {
      FlattenDecodes(cs);
    }
  }
}
