/** What a left-to-right walk over a null-terminated string sees, character by character:
    the specification that the scanners of strutils.h are proved against. Each function
    takes the text from a position on (what a pointer into the string points at). */
module Utf8Walk {
  import opened Utf8Char

  /** Why a walk over the text stopped: at the terminator, at a malformed leading byte,
      or at a character whose declared length runs past the terminator (where the source
      would go on reading past the end of the string). */
  datatype Stop = AtTerminator | AtMalformedLead | PastTerminator

  /** What a walk decodes, and why it stopped. */
  datatype Walk = Walk(chars: seq<nat>, stop: Stop)

  /** The walk over t: the code points of its characters, read in order by the length
      their leading bytes declare, until it stops. Continuation bytes are not checked. */
  function Scan(t: seq<Byte>): (w: Walk)
    ensures |w.chars| <= |t|
    ensures w.stop == AtTerminator && |w.chars| == 0 ==> |t| == 0
    decreases |t|
  {
    if |t| == 0 then Walk([], AtTerminator)
    else match CharLen(t[0])
      case None => Walk([], AtMalformedLead)
      case Some(n) =>
        if n <= |t| then
          var w := Scan(t[n..]);
          Walk([ParseChar(t, n).value] + w.chars, w.stop)
        else
          Walk([], PastTerminator)
  }

  /** The code points the walk over t decodes. */
  function Decoded(t: seq<Byte>): seq<nat>
  {
    Scan(t).chars
  }

  /** Whether the walk over t stops at a malformed leading byte. */
  predicate Malformed(t: seq<Byte>)
  {
    Scan(t).stop == AtMalformedLead
  }

  /** Whether no character of t runs past the terminator. */
  predicate Framed(t: seq<Byte>)
  {
    Scan(t).stop != PastTerminator
  }

  /** Whether none of the first m characters of t runs past the terminator. */
  predicate FramedFor(t: seq<Byte>, m: nat)
  {
    Scan(t).stop != PastTerminator || m <= |Scan(t).chars|
  }

  /** The number of positions before the terminator at which the walk over t reads a
      leading byte: one per decoded character, plus the one it stops at, if any. */
  function Positions(t: seq<Byte>): nat
  {
    |Scan(t).chars| + if Scan(t).stop == AtTerminator then 0 else 1
  }

  /** Whether the character at the front of t, if its leading byte is valid, ends before
      the terminator, so that stepping over it does not go past the terminator. */
  predicate Fits(t: seq<Byte>)
  {
    match CharLen(At(t, 0))
    case None => true
    case Some(n) => n <= |t|
  }

  /** Whether the bytes the decoder reads for the character at offset p of s, if its
      leading byte is valid, reach at most the terminator (which it may read as a following
      byte). */
  predicate ReadableAt(s: seq<Byte>, p: nat)
  {
    match CharLen(At(s, p))
    case None => true
    case Some(m) => p + m <= |s| + 1
  }

  /** What classifying and decoding the character at offset p of s gives: None on a
      malformed leading byte, and otherwise the decoded value, as long as the bytes read
      reach at most the terminator. */
  function DecodeAt(s: seq<Byte>, p: nat): Option<nat>
  {
    if p <= |s| then
      match CharLen(At(s, p))
      case None => None
      case Some(m) => if p + m <= |s| + 1 then ParseChar(s[p..], m) else None
    else None
  }

  /** Whether t is structurally valid UTF-8 as strutils.h understands it: it splits into
      characters, each a valid leading byte followed by as many continuation bytes as the
      leading byte declares, ending exactly at the terminator. */
  predicate ValidUtf8(t: seq<Byte>)
    decreases |t|
  {
    |t| == 0 ||
    match CharLen(t[0])
    case None => false
    case Some(n) =>
      n <= |t| && (forall j :: 1 <= j < n ==> IsContinuation(t[j])) && ValidUtf8(t[n..])
  }

  /** The offset a decode cursor at offset c of s moves to: past the character on a valid
      leading byte, nowhere on a malformed one. */
  function Advance(s: seq<Byte>, c: nat): (r: nat)
    ensures CharLen(At(s, c)).None? <==> r == c
  {
    match CharLen(At(s, c))
    case None => c
    case Some(n) => c + n
  }

  /** The offset of a decode cursor that started at 0 after k decode steps. */
  function AdvanceN(s: seq<Byte>, k: nat): nat
  {
    if k == 0 then 0 else Advance(s, AdvanceN(s, k - 1))
  }

  // ---------------------------------------------------------------------------------
  // Properties of the walk

  /** A valid string is well framed and has no malformed leading byte. */
  lemma {:induction false} ValidIsFramed(t: seq<Byte>)
    requires ValidUtf8(t)
    ensures Framed(t) && !Malformed(t)
    decreases |t|
  {
    if |t| > 0 {
      ValidIsFramed(t[CharLen(t[0]).value..]);
    }
  }

  /** On all-ASCII text, every byte is a character and decodes to itself. */
  lemma {:induction false} AsciiDecoded(t: seq<Byte>)
    requires forall j :: 0 <= j < |t| ==> 0 < t[j] < 0x80
    ensures |Decoded(t)| == |t| && forall j :: 0 <= j < |t| ==> Decoded(t)[j] == t[j]
    ensures ValidUtf8(t) && !Malformed(t) && NulFree(t)
    decreases |t|
  {
    if |t| > 0 {
      AsciiDecoded(t[1..]);
      assert Decoded(t) == [t[0] as nat] + Decoded(t[1..]);
    }
  }

  /** After k decode steps from offset 0 of s, for k at most the number of characters the
      walk decodes, the cursor is at the start of the rest of the walk: the walk from there
      decodes the remaining characters and stops for the same reason. */
  lemma {:induction false} WalkSplit(s: seq<Byte>, k: nat)
    requires k <= |Decoded(s)|
    ensures AdvanceN(s, k) <= |s|
    ensures Decoded(s[AdvanceN(s, k)..]) == Decoded(s)[k..]
    ensures Scan(s[AdvanceN(s, k)..]).stop == Scan(s).stop
    decreases k
  {
    if k > 0 {
      WalkSplit(s, k - 1);
      var p := AdvanceN(s, k - 1);
      var d, rest := Decoded(s), Decoded(s[p..]);
      DropOne(rest, d, k);
      StepFrom(s, p);
    }
  }

  /** One decode step from offset p of s, where the walk from p decodes a character, steps
      to where the walk from p goes on after that character. */
  lemma StepFrom(s: seq<Byte>, p: nat)
    requires p <= |s| && |Decoded(s[p..])| > 0
    ensures Advance(s, p) <= |s|
    ensures Decoded(s[Advance(s, p)..]) == Decoded(s[p..])[1..]
    ensures Scan(s[Advance(s, p)..]).stop == Scan(s[p..]).stop
  {
    var t := s[p..];
    ScanStep(t);
    var n := CharLen(t[0]).value;
    assert At(s, p) == t[0];
    assert t[n..] == s[p + n..];
  }

  /** Dropping the first element of the suffix from k - 1 on leaves the suffix from k on. */
  lemma DropOne(a: seq<nat>, b: seq<nat>, k: nat)
    requires 0 < k <= |b| && a == b[k - 1..]
    ensures |a| > 0 && a[1..] == b[k..]
  {
  }

  /** Extending the prefix of length k by the element at k gives the prefix of length k + 1. */
  lemma TakeOneMore(b: seq<nat>, k: nat)
    requires k < |b|
    ensures b[..k + 1] == b[..k] + [b[k]]
  {
  }

  /** One step of the walk, over a character it decodes. */
  lemma ScanStep(t: seq<Byte>)
    requires |Decoded(t)| > 0
    ensures |t| > 0 && CharLen(t[0]).Some? && CharLen(t[0]).value <= |t|
    ensures Decoded(t[CharLen(t[0]).value..]) == Decoded(t)[1..]
    ensures Scan(t[CharLen(t[0]).value..]).stop == Scan(t).stop
  {
  }

  /** The walk over a complete character e followed by t decodes e's value and then walks
      t; the two are valid together when e's following bytes are continuation bytes and t
      is valid. */
  lemma ScanPrepend(e: seq<Byte>, t: seq<Byte>, n: nat)
    requires 1 <= n == |e| && CharLen(e[0]) == Some(n)
    ensures Scan(e + t) == Walk([ParseChar(e, n).value] + Scan(t).chars, Scan(t).stop)
    ensures ValidUtf8(e + t) <==> (forall j :: 1 <= j < n ==> IsContinuation(e[j])) && ValidUtf8(t)
  {
    var s := e + t;
    assert s[0] == e[0];
    assert s[n..] == t;
    ParseCharPrefix(e, t, n);
    assert forall j :: 1 <= j < n ==> s[j] == e[j];
  }

  /** Called once per character from offset 0 of a string whose walk ends at the
      terminator, the decode cursor ends at the terminator. */
  lemma CursorReachesEnd(s: seq<Byte>)
    requires Framed(s) && !Malformed(s)
    ensures AdvanceN(s, |Decoded(s)|) == |s|
  {
    WalkSplit(s, |Decoded(s)|);
  }

  /** The k-th decode step from offset 0 starts at a valid leading byte whose character
      fits, and decodes the k-th character of the walk. */
  lemma CursorDecodesInOrder(s: seq<Byte>, k: nat)
    requires k < |Decoded(s)|
    ensures AdvanceN(s, k) < |s| && Fits(s[AdvanceN(s, k)..])
    ensures CharLen(s[AdvanceN(s, k)]).Some?
    ensures ParseChar(s[AdvanceN(s, k)..], CharLen(s[AdvanceN(s, k)]).value) == Some(Decoded(s)[k])
  {
    WalkSplit(s, k);
    var t := s[AdvanceN(s, k)..];
    assert Decoded(t) == Decoded(s)[k..];
    assert |t| > 0 && t[0] == s[AdvanceN(s, k)];
  }

  /** Where the decode cursor stands after k steps from offset 0, for k at most the number
      of characters the walk decodes: on the k-th character while there is one, and
      otherwise at what stopped the walk (the terminator, a malformed leading byte, or a
      character running past the terminator). */
  lemma WalkAt(s: seq<Byte>, k: nat)
    requires k <= |Decoded(s)|
    ensures AdvanceN(s, k) <= |s|
    ensures k < |Decoded(s)| ==>
      AdvanceN(s, k) < |s| && Fits(s[AdvanceN(s, k)..]) && CharLen(s[AdvanceN(s, k)]).Some? &&
      ParseChar(s[AdvanceN(s, k)..], CharLen(s[AdvanceN(s, k)]).value) == Some(Decoded(s)[k])
    ensures k == |Decoded(s)| ==> (AdvanceN(s, k) == |s| <==> Scan(s).stop == AtTerminator)
    ensures k == |Decoded(s)| && AdvanceN(s, k) < |s| ==>
      (CharLen(s[AdvanceN(s, k)]).None? <==> Malformed(s))
  {
    if k < |Decoded(s)| {
      CursorDecodesInOrder(s, k);
    } else {
      WalkSplit(s, k);
      var t := s[AdvanceN(s, k)..];
      assert |Decoded(t)| == 0;
      if |t| > 0 {
        assert t[0] == s[AdvanceN(s, k)];
      }
    }
  }

  // ---------------------------------------------------------------------------------
  // Examples

  /** "A", U+00E9 as C3 A9 and U+20AC as E2 82 AC: three valid characters. */
  lemma ThreeCharExample()
    ensures ValidUtf8([0x41, 0xC3, 0xA9, 0xE2, 0x82, 0xAC])
    ensures Decoded([0x41, 0xC3, 0xA9, 0xE2, 0x82, 0xAC]) == [0x41, 0xE9, 0x20AC]
  {
    var s: seq<Byte> := [0x41, 0xC3, 0xA9, 0xE2, 0x82, 0xAC];
    var s1, s2 := s[1..], s[3..];
    assert s1 == [0xC3, 0xA9, 0xE2, 0x82, 0xAC] && s1[2..] == s2;
    assert s2 == [0xE2, 0x82, 0xAC] && s2[3..] == [];
    assert IsContinuation(s1[1]) && IsContinuation(s2[1]) && IsContinuation(s2[2]);
    assert ParseChar(s2, 3) == Some(0x20AC) && ParseChar(s1, 2) == Some(0xE9);
    assert CharLen(s2[0]) == Some(3) && CharLen(s1[0]) == Some(2);
    assert Decoded(s2[3..]) == [];
    assert ValidUtf8(s2);
    assert Decoded(s2) == [ParseChar(s2, 3).value] + Decoded(s2[3..]);
    assert Decoded(s2) == [0x20AC];
    assert ValidUtf8(s1) && Decoded(s1) == [0xE9, 0x20AC];
  }

  /** A lone continuation byte is malformed; a 3-byte leading byte whose continuation
      bytes are cut off by the terminator is not valid, although decoding it alone
      (the bytes it reads stopping at the terminator) still yields a value. */
  lemma RejectedExamples()
    ensures Malformed([0x80]) && !ValidUtf8([0x80])
    ensures !ValidUtf8([0xE2]) && !Framed([0xE2])
    ensures !ValidUtf8([0xE2, 0x82]) && ParseChar([0xE2, 0x82], 3) == Some(0x2080)
    ensures !ValidUtf8([0xC3]) && ParseChar([0xC3], 2) == Some(0xC0)
  {
  }

  /** The validation is lenient: the overlong C0 80 and F4 90 80 80, which decodes above
      U+10FFFF, are accepted. */
  lemma LenientExamples()
    ensures ValidUtf8([0xC0, 0x80]) && Decoded([0xC0, 0x80]) == [0]
    ensures ValidUtf8([0xF4, 0x90, 0x80, 0x80]) && Decoded([0xF4, 0x90, 0x80, 0x80]) == [0x11_0000]
  {
    var a: seq<Byte> := [0xC0, 0x80];
    assert a[2..] == [];
    var b: seq<Byte> := [0xF4, 0x90, 0x80, 0x80];
    assert b[4..] == [];
  }

  /** Where the walk stops early. In "A" C3 the 2-byte character is cut short by the
      terminator: utf8_nth_char_pos still finds it at offset 1, and decoding it reads the
      terminator as its following byte. In "A" 80 the lookup finds the malformed byte at
      offset 1, which decodes to nothing. */
  lemma StoppedEarlyExamples()
    ensures Decoded([0x41, 0xC3]) == [0x41] && !Framed([0x41, 0xC3]) && FramedFor([0x41, 0xC3], 1)
    ensures Positions([0x41, 0xC3]) == 2 && AdvanceN([0x41, 0xC3], 1) == 1
    ensures ReadableAt([0x41, 0xC3], 1) && DecodeAt([0x41, 0xC3], 1) == Some(0xC0)
    ensures Decoded([0x41, 0x80]) == [0x41] && Malformed([0x41, 0x80])
    ensures Positions([0x41, 0x80]) == 2 && AdvanceN([0x41, 0x80], 1) == 1
    ensures DecodeAt([0x41, 0x80], 1) == None
  {
    var a: seq<Byte> := [0x41, 0xC3];
    assert a[1..] == [0xC3];
    var b: seq<Byte> := [0x41, 0x80];
    assert b[1..] == [0x80];
  }
}
