/** Bytes of a null-terminated string, leading-byte classification and the decoding of
    one character: the two internal helpers of strutils.h. */
module Utf8Char {

  /** One byte of text, read as an unsigned value. */
  type Byte = b: int | 0 <= b < 0x100

  /** The absence of a value stands for the source's sentinels (UINT8_MAX, WCHAR_MAX,
      SIZE_MAX, (size_t)-1 and NULL). */
  datatype Option<+T> = None | Some(value: T)

  /** Byte j of the string whose bytes before the terminator are s:
      the terminator, and anything after it, reads as 0. */
  function At(s: seq<Byte>, j: nat): (b: Byte)
    ensures j < |s| ==> b == s[j]
    ensures j >= |s| ==> b == 0
  {
    if j < |s| then s[j] else 0
  }

  /** The bytes of a C string before its terminator hold no 0. */
  predicate NulFree(s: seq<Byte>)
  {
    forall j :: 0 <= j < |s| ==> s[j] != 0
  }

  /** A concatenation is free of 0 bytes exactly when both parts are. */
  lemma NulFreeConcat(a: seq<Byte>, b: seq<Byte>)
    ensures NulFree(a + b) <==> NulFree(a) && NulFree(b)
  {
    if NulFree(a + b) {
      assert forall j :: 0 <= j < |a| ==> a[j] == (a + b)[j];
      assert forall j :: 0 <= j < |b| ==> b[j] == (a + b)[|a| + j];
    }
    if NulFree(a) && NulFree(b) {
      assert forall j :: 0 <= j < |a + b| ==> (a + b)[j] == if j < |a| then a[j] else b[j - |a|];
    }
  }

  /** A continuation byte: bit pattern 10xx xxxx. */
  predicate IsContinuation(b: Byte)
  {
    b / 0x40 == 0x2
  }

  /** The length in bytes of the character whose leading byte is b, from the byte's
      high bits, or None for a byte that cannot lead a character. */
  function CharLen(b: Byte): (r: Option<nat>)
    ensures r.Some? ==> 1 <= r.value <= 4
    ensures r == Some(1) <==> b < 0x80
    ensures r == Some(2) <==> 0xC0 <= b < 0xE0
    ensures r == Some(3) <==> 0xE0 <= b < 0xF0
    ensures r == Some(4) <==> 0xF0 <= b < 0xF8
    ensures r == None <==> (0x80 <= b < 0xC0 || 0xF8 <= b)
  {
    if b / 0x80 == 0x0 then Some(1)         // 0xxx xxxx
    else if b / 0x20 == 0x6 then Some(2)    // 110x xxxx
    else if b / 0x10 == 0xE then Some(3)    // 1110 xxxx
    else if b / 0x08 == 0x1E then Some(4)   // 1111 0xxx
    else None                               // 10xx xxxx and 1111 1xxx
  }

  /** One more than the largest value an n-byte character can carry:
      7, 11, 16 and 21 payload bits. */
  function Limit(n: nat): nat
    requires 1 <= n <= 4
  {
    if n == 1 then 0x80 else if n == 2 then 0x800 else if n == 3 then 0x1_0000 else 0x20_0000
  }

  /** The code point of the n-byte character at the front of s: the payload bits of the
      leading byte followed by the low six bits of each following byte, most significant
      first. The following bytes are not checked. A length other than 1 to 4 gives None.
      The bytes read may reach the terminator but not go past it. */
  function ParseChar(s: seq<Byte>, n: nat): (r: Option<nat>)
    requires 1 <= n <= 4 ==> n <= |s| + 1
    ensures r.Some? <==> 1 <= n <= 4
    ensures n == 1 ==> r == Some(At(s, 0))
    ensures CharLen(At(s, 0)) == Some(n) ==> r.value < Limit(n)
  {
    // Shifting by 6, 12 and 18 bits is multiplying by 0x40, 0x1000 and 0x4_0000; the
    // fields do not overlap, so or-ing them is adding them.
    if n == 1 then
      Some(At(s, 0))
    else if n == 2 then
      Some((At(s, 0) % 0x20) * 0x40 + At(s, 1) % 0x40)
    else if n == 3 then
      Some((At(s, 0) % 0x10) * 0x1000 + (At(s, 1) % 0x40) * 0x40 + At(s, 2) % 0x40)
    else if n == 4 then
      Some((At(s, 0) % 0x08) * 0x4_0000 + (At(s, 1) % 0x40) * 0x1000
           + (At(s, 2) % 0x40) * 0x40 + At(s, 3) % 0x40)
    else
      None
  }

  /** Decoding reads only the first n bytes: text after them does not matter. */
  lemma ParseCharPrefix(s: seq<Byte>, t: seq<Byte>, n: nat)
    requires 1 <= n <= 4 && n <= |s|
    ensures ParseChar(s + t, n) == ParseChar(s, n)
  {
    assert forall j :: 0 <= j < n ==> At(s + t, j) == At(s, j);
  }
}
