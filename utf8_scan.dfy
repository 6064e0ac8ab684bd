/** The scanners of strutils.h: each walks a null-terminated string character by
    character from its start, advancing an offset i and counting characters. */
module Utf8Scan {
  import opened Utf8Char
  import opened Utf8Walk

  function Min(a: nat, b: nat): nat
  {
    if a <= b then a else b
  }

  /** utf8_validate: whether the whole string is structurally valid, checking each leading
      byte and each continuation byte it declares. The continuation checks stop at the
      terminator, so no string is read past its end. */
  method Validate(s: seq<Byte>) returns (ok: bool)
    requires NulFree(s)
    ensures ok == ValidUtf8(s)
  {
    var i := 0;
    while At(s, i) != 0
      invariant i <= |s|
      invariant ValidUtf8(s) == ValidUtf8(s[i..])
      decreases |s| - i
    {
      var len := CharLen(At(s, i));
      if len.None? {
        return false;
      }
      var n := len.value;
      ghost var t := s[i..];
      var j := 1;
      while j < n
        invariant 1 <= j <= n && j <= |t|
        invariant forall k :: 1 <= k < j ==> k < |t| && IsContinuation(t[k])
      {
        if !IsContinuation(At(s, i + j)) {
          return false;
        }
        assert t[j] == s[i + j];
        j := j + 1;
      }
      assert s[i..][n..] == s[i + n..];
      i := i + n;
    }
    return true;
  }

  /** utf8_wchar_count: the number of characters, or None once a malformed leading byte is
      reached. Continuation bytes are not checked; the walk steps by the declared length,
      which must not run past the terminator. */
  method WcharCount(s: seq<Byte>) returns (r: Option<nat>)
    requires NulFree(s) && Framed(s)
    ensures r == if Malformed(s) then None else Some(|Decoded(s)|)
  {
    var i, count := 0, 0;
    while At(s, i) != 0
      invariant count <= |Decoded(s)|
      invariant i == AdvanceN(s, count) && i <= |s|
      decreases |s| - i
    {
      WalkAt(s, count);
      var len := CharLen(At(s, i));
      if len.None? {
        return None;
      }
      i := i + len.value;
      count := count + 1;
    }
    WalkAt(s, count);
    return Some(count);
  }

  /** utf8_nth_char_pos: the offset at which the walk reads its n-th leading byte (0-based),
      which is where a decode cursor started at 0 stands after n steps, or None when the
      terminator or a malformed leading byte comes first. The first n characters must not run
      past the terminator. */
  method NthCharPos(s: seq<Byte>, n: nat) returns (r: Option<nat>)
    requires NulFree(s) && FramedFor(s, n)
    ensures r.Some? <==> n < Positions(s)
    ensures r.Some? ==> r.value == AdvanceN(s, n) && r.value < |s|
  {
    var i, count := 0, 0;
    while At(s, i) != 0
      invariant count <= n && count <= |Decoded(s)|
      invariant i == AdvanceN(s, count) && i <= |s|
      decreases |s| - i
    {
      WalkAt(s, count);
      if count == n {
        return Some(i);
      }
      var len := CharLen(At(s, i));
      if len.None? {
        return None;
      }
      i := i + len.value;
      count := count + 1;
    }
    WalkAt(s, count);
    return None;
  }

  /** utf8_nth_char: decodes the character at the offset utf8_nth_char_pos finds, or gives
      None when there is no such offset or its leading byte is malformed. That is the n-th
      character (0-based) while there is one. The first n characters must not run past the
      terminator, and the n-th must not read beyond it. */
  method NthChar(s: seq<Byte>, n: nat) returns (r: Option<nat>)
    requires NulFree(s) && FramedFor(s, n)
    requires n <= |Decoded(s)| ==> ReadableAt(s, AdvanceN(s, n))
    ensures r == if n < Positions(s) then DecodeAt(s, AdvanceN(s, n)) else None
    ensures n < |Decoded(s)| ==> r == Some(Decoded(s)[n])
    ensures Framed(s) ==> r == if n < |Decoded(s)| then Some(Decoded(s)[n]) else None
  {
    var pos := NthCharPos(s, n);
    if pos.None? {
      return None;
    }
    var p := pos.value;
    WalkAt(s, n);
    var len := CharLen(At(s, p));
    if len.None? {
      return None;
    }
    r := ParseChar(s[p..], len.value);
  }

  /** utf8_to_wstr: decodes the characters in order into buf, stopping at the terminator
      or after cap characters, and returns how many it wrote, or None when it meets a
      malformed leading byte before stopping. The slots it writes hold the decoded
      characters, those already written on failure are kept, and no slot from the
      returned count on is touched. The first cap characters must not run past the
      terminator. */
  method ToWstr(s: seq<Byte>, buf: array<nat>, cap: nat) returns (r: Option<nat>)
    requires NulFree(s) && cap <= buf.Length && FramedFor(s, cap)
    modifies buf
    ensures r.None? <==> Malformed(s) && |Decoded(s)| < cap
    ensures r.Some? ==> r.value == Min(|Decoded(s)|, cap)
    ensures forall k :: 0 <= k < Min(|Decoded(s)|, cap) ==> buf[k] == Decoded(s)[k]
    ensures forall k :: Min(|Decoded(s)|, cap) <= k < buf.Length ==> buf[k] == old(buf[k])
  {
    ghost var d := Decoded(s);
    var i, count := 0, 0;
    while At(s, i) != 0 && count < cap
      invariant count <= cap && count <= |d|
      invariant i == AdvanceN(s, count) && i <= |s|
      invariant forall k :: 0 <= k < count ==> buf[k] == d[k]
      invariant forall k :: count <= k < buf.Length ==> buf[k] == old(buf[k])
      decreases |s| - i
    {
      WalkAt(s, count);
      var len := CharLen(At(s, i));
      if len.None? {
        return None;
      }
      var wc := ParseChar(s[i..], len.value);
      if wc.None? {
        return None;
      }
      buf[count] := wc.value;
      i := i + len.value;
      count := count + 1;
    }
    WalkAt(s, count);
    return Some(count);
  }

  /** Indexed lookups into "A", U+00E9 and U+20AC (41 C3 A9 E2 82 AC): indices 0, 1 and 2
      give the three code points and index 3 is out of range. */
  method NthCharExample() returns (c0: Option<nat>, c1: Option<nat>, c2: Option<nat>, c3: Option<nat>)
    ensures c0 == Some(0x41) && c1 == Some(0xE9) && c2 == Some(0x20AC) && c3 == None
  {
    var s: seq<Byte> := [0x41, 0xC3, 0xA9, 0xE2, 0x82, 0xAC];
    ThreeCharExample();
    ValidIsFramed(s);
    c0 := NthChar(s, 0);
    c1 := NthChar(s, 1);
    c2 := NthChar(s, 2);
    c3 := NthChar(s, 3);
  }
}
