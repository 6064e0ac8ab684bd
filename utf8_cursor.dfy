/** utf8_next_char of strutils.h: a decode cursor that the call moves forward over the
    character it decodes. The caller's `const char*` becomes the offset `pos` into the text. */
module Utf8Cursor {
  import opened Utf8Char
  import opened Utf8Walk

  class Cursor {
    /** The bytes of the string before its terminator. */
    const text: seq<Byte>
    /** The offset of the next byte to decode. */
    var pos: nat

    /** The cursor is at most one past the terminator, where a call at the terminator
        leaves it. */
    ghost predicate Valid()
      reads this
    {
      pos <= |text| + 1
    }

    /** A cursor at the start of s. */
    constructor (s: seq<Byte>)
      ensures Valid() && text == s && pos == 0
    {
      text := s;
      pos := 0;
    }

    /** Decodes the character at the cursor and steps past it, or, on a malformed leading
        byte, returns None and leaves the cursor where it is. The continuation bytes are not
        checked. Spotting the terminator is the caller's part: at the terminator the call
        decodes it as the character 0 and steps past it. The bytes read must reach at most
        the terminator. */
    method Next() returns (r: Option<nat>)
      requires Valid() && pos <= |text| && ReadableAt(text, pos)
      modifies this
      ensures Valid()
      ensures pos == Advance(text, old(pos))
      ensures match CharLen(At(text, old(pos)))
        case None => r == None && pos == old(pos)
        case Some(n) => r == ParseChar(text[old(pos)..], n) && pos == old(pos) + n
    {
      var len := CharLen(At(text, pos));
      if len.None? {
        return None;
      }
      var wc := ParseChar(text[pos..], len.value);
      if wc.None? {
        return None;
      }
      pos := pos + len.value;
      return wc;
    }
  }

  /** Reads a whole well-framed string with no malformed leading byte through a cursor at
      its start, one call per character, checking for the terminator before each call as
      callers of utf8_next_char do: the calls decode every character in order, and the
      cursor ends at the terminator after as many calls as there are characters. */
  method ReadAll(cursor: Cursor) returns (cps: seq<nat>)
    requires cursor.Valid() && cursor.pos == 0
    requires NulFree(cursor.text) && Framed(cursor.text) && !Malformed(cursor.text)
    modifies cursor
    ensures cps == Decoded(cursor.text) && cursor.pos == |cursor.text|
  {
    var s := cursor.text;
    cps := [];
    while At(s, cursor.pos) != 0
      invariant cursor.Valid()
      invariant |cps| <= |Decoded(s)| && cursor.pos == AdvanceN(s, |cps|)
      invariant cps == Decoded(s)[..|cps|]
      decreases |s| - cursor.pos
    {
      WalkAt(s, |cps|);
      var c := cursor.Next();
      TakeOneMore(Decoded(s), |cps|);
      cps := cps + [c.value];
    }
    WalkAt(s, |cps|);
  }
}
